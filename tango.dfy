/// `TangoNode` and `TangoTree` of bstvis/tree/tango_strict.py: a search tree
/// over a fixed set of keys, cut by the `is_root` marks into auxiliary trees
/// (red-black trees of preferred paths of the perfect tree it was built as).
/// Every node keeps its depth in that perfect tree and the least and greatest
/// such depth of its auxiliary subtree.
///
/// The shapes, marks and summaries are those of `AuxTrees`; the rotations are
/// `Rotation.Lift` followed by the exchange of marks and the recomputation of
/// the two summaries.
module Tango {
  import opened BinTree
  import opened Bst
  import opened Rotation
  import opened AuxTrees
  import RB = RedBlack
  import NaiveBst
  import opened Sorting
  import opened AuxForest

  /** `is_root_or_None`: the node is absent or roots an auxiliary tree. */
  predicate IsRootOrNone(n: Node?)
    reads n
  {
    n == null || n.isRoot
  }

  /** The nodes whose `is_root` flag is set. */
  ghost function Marked(t: BinaryTree): set<Node>
    reads t, t.Repr`isRoot
  {
    MarkedIn(t.Repr)
  }

  /** The auxiliary tree rooted at the marked node `a` holds `p` and no
      node holding `key`. */
  ghost predicate Misses(t: BinaryTree, a: Node, p: Node, key: int)
    reads t, t.Repr`isRoot
  {
    a in Marked(t) && p in AuxPart(Sub(t.shape, a), Marked(t)) &&
    forall n :: n in AuxPart(Sub(t.shape, a), Marked(t)) ==> n.key != key
  }

  /** The nodes of `R` whose `is_root` flag is set. */
  ghost function MarkedIn(R: set<Node>): set<Node>
    reads R`isRoot
  {
    set n | n in R && n.isRoot
  }

  /** The nodes of the auxiliary tree holding `p`. */
  ghost function Aux(t: BinaryTree, p: Node): set<Node>
    reads t, t.Repr`isRoot
  {
    AuxTree(t.shape, p, Marked(t))
  }

  /** Every node's `min_depth` and `max_depth` are the least and greatest
      perfect-tree depth of the part of its subtree in its auxiliary tree. */
  ghost predicate Summarised(t: BinaryTree)
    reads t, t.Repr`isRoot, t.Repr`depth, t.Repr`minDepth, t.Repr`maxDepth
  {
    forall n :: n in t.Repr ==>
      Nodes(Sub(t.shape, n)) <= t.Repr &&
      n.minDepth == AuxMin(Sub(t.shape, n), Marked(t)) &&
      n.maxDepth == AuxMax(Sub(t.shape, n), Marked(t))
  }

  /** `q` is the in-order predecessor of `p` among the nodes of `A`. */
  ghost predicate PredecessorIn(A: set<Node>, p: Node, q: Node)
  {
    q in A && q.key < p.key && forall n :: n in A ==> !(q.key < n.key < p.key)
  }

  /** `q` is the in-order successor of `p` among the nodes of `A`. */
  ghost predicate SuccessorIn(A: set<Node>, p: Node, q: Node)
  {
    q in A && p.key < q.key && forall n :: n in A ==> !(p.key < n.key < q.key)
  }

  // ---------------------------------------------------------------------
  // Facts about one node of a valid tree

  /** A node of a valid tree: its subtree, its children and their subtrees,
      the keys on either side, and `is_root_or_None` of a child as the
      question whether the child's subtree continues the auxiliary tree. */
  lemma Unfold(t: BinaryTree, p: Node)
    requires t.Valid() && p in t.Repr
    ensures var S, M := Sub(t.shape, p), Marked(t);
      S.Br? && S.node == p && IsBst(S) && Distinct(S) && Nodes(S) <= t.Repr &&
      p.left == Top(S.left) && p.right == Top(S.right) && p.left != p && p.right != p &&
      (p.left != null ==> p.left in t.Repr && p.left.parent == p && Sub(t.shape, p.left) == S.left) &&
      (p.right != null ==> p.right in t.Repr && p.right.parent == p && Sub(t.shape, p.right) == S.right) &&
      (Joined(S.left, M) <==> !IsRootOrNone(p.left)) &&
      (Joined(S.right, M) <==> !IsRootOrNone(p.right)) &&
      (forall n :: n in Nodes(S.left) ==> n.key < p.key) &&
      (forall n :: n in Nodes(S.right) ==> p.key < n.key)
  {
    NodeFacts(t, p);
    SubFacts(t.shape, p);
    ChildFacts(t.shape, null, p);
    SubBst(t.shape, p);
    BstParts(Sub(t.shape, p));
  }

  /** A node with a parent: the parent is a node one level up, `p` is in one
      of its child slots, and an unmarked `p` shares its auxiliary root. */
  lemma Climb(t: BinaryTree, w: Node)
    requires t.Valid() && w in t.Repr && w.parent != null
    ensures var s, u := t.shape, w.parent;
      u in t.Repr && w != Top(s) && u == ParentIn(s, w, null) && Depth(s, u) < Depth(s, w) &&
      Sub(s, u).Br? && Sub(s, u).node == u &&
      (u.left == w ==> Sub(s, w) == Sub(s, u).left) &&
      (u.left != w ==> u.right == w && Sub(s, w) == Sub(s, u).right) &&
      (!w.isRoot ==> AuxRoot(s, w, Marked(t)) == AuxRoot(s, u, Marked(t)))
  {
    var s, u := t.shape, w.parent;
    NodeFacts(t, w);
    NodeFacts(t, u);
    ParentFacts(s, null, w);
    ChildFacts(s, null, u);
    if !w.isRoot {
      AuxRootStep(s, w, Marked(t));
    }
  }

  /** Two nodes of a search tree with the same key are the same node. */
  lemma {:induction false} KeyIdentifies(t: Tree, a: Node, b: Node)
    requires IsBst(t) && a in Nodes(t) && b in Nodes(t) && a.key == b.key
    ensures a == b
  {
    match t
    case Br(l, n, r) =>
      BstParts(t);
      if a in Nodes(l) && b in Nodes(l) {
        KeyIdentifies(l, a, b);
      } else if a in Nodes(r) && b in Nodes(r) {
        KeyIdentifies(r, a, b);
      }
  }

  /** A node of the auxiliary part of `Sub(s, a)` whose own subtree holds a
      node of that part has that node in its own part. */
  lemma InsidePart(t: BinaryTree, a: Node, p: Node, n: Node)
    requires t.Valid() && a in t.Repr
    requires p in AuxPart(Sub(t.shape, a), Marked(t)) && n in AuxPart(Sub(t.shape, a), Marked(t))
    requires n in Nodes(Sub(t.shape, p))
    ensures n in AuxPart(Sub(t.shape, p), Marked(t))
  {
    var s, M := t.shape, Marked(t);
    SubFacts(s, a);
    AuxPartNodes(Sub(s, a), M);
    SubOfSub(s, a, p);
    AuxPartInside(Sub(s, a), p, n, M);
  }

  /** The auxiliary part below `p` lies within the auxiliary part below any
      node `a` whose part holds `p`. */
  lemma PartWithin(t: BinaryTree, a: Node, p: Node)
    requires t.Valid() && a in t.Repr && p in AuxPart(Sub(t.shape, a), Marked(t))
    ensures p in t.Repr && AuxPart(Sub(t.shape, p), Marked(t)) <= AuxPart(Sub(t.shape, a), Marked(t))
  {
    var s, M := t.shape, Marked(t);
    SubFacts(s, a);
    AuxPartNodes(Sub(s, a), M);
    SubOfSub(s, a, p);
    AuxPartSub(Sub(s, a), p, M);
  }

  // ---------------------------------------------------------------------
  // TangoNode._update_depths

  /** What `_update_depths` computes for `min_depth`: the node's own depth,
      folded with the summary of each child that continues the auxiliary
      tree. */
  ghost function FoldMin(x: Node): int
    reads x, x.left, x.right
  {
    var a := if IsRootOrNone(x.left) then x.depth else Min(x.depth, x.left.minDepth);
    if IsRootOrNone(x.right) then a else Min(a, x.right.minDepth)
  }

  /** What `_update_depths` computes for `max_depth`. */
  ghost function FoldMax(x: Node): int
    reads x, x.left, x.right
  {
    var a := if IsRootOrNone(x.left) then x.depth else Max(x.depth, x.left.maxDepth);
    if IsRootOrNone(x.right) then a else Max(a, x.right.maxDepth)
  }

  /** `_update_depths`: the summaries of `x` from its own depth and those of
      the children that continue its auxiliary tree (a marked or missing
      child is skipped). The node's own depth lies between them. */
  method UpdateDepths(ghost t: BinaryTree, x: Node)
    requires x in t.Repr && x.left != x && x.right != x
    modifies x`minDepth, x`maxDepth
    ensures x.minDepth == FoldMin(x) && x.maxDepth == FoldMax(x)
    ensures x.minDepth <= x.depth <= x.maxDepth
    ensures Marked(t) == old(Marked(t)) && RB.Paints(t) == old(RB.Paints(t))
  {
    x.minDepth := x.depth;
    x.maxDepth := x.depth;
    if !IsRootOrNone(x.left) {
      x.minDepth := Min(x.minDepth, x.left.minDepth);
      x.maxDepth := Max(x.maxDepth, x.left.maxDepth);
    }
    if !IsRootOrNone(x.right) {
      x.minDepth := Min(x.minDepth, x.right.minDepth);
      x.maxDepth := Max(x.maxDepth, x.right.maxDepth);
    }
  }

  /** Folding correct child summaries gives the correct summary of `x`. */
  lemma SummaryHere(t: BinaryTree, x: Node)
    requires t.Valid() && x in t.Repr
    requires x.left != null ==>
      x.left.minDepth == AuxMin(Sub(t.shape, x.left), Marked(t)) &&
      x.left.maxDepth == AuxMax(Sub(t.shape, x.left), Marked(t))
    requires x.right != null ==>
      x.right.minDepth == AuxMin(Sub(t.shape, x.right), Marked(t)) &&
      x.right.maxDepth == AuxMax(Sub(t.shape, x.right), Marked(t))
    requires x.minDepth == FoldMin(x) && x.maxDepth == FoldMax(x)
    ensures x.minDepth == AuxMin(Sub(t.shape, x), Marked(t))
    ensures x.maxDepth == AuxMax(Sub(t.shape, x), Marked(t))
  {
    Unfold(t, x);
  }

  // ---------------------------------------------------------------------
  // Summaries that are stale along one path

  /** The summaries of `n` are the extremes of its auxiliary part. */
  ghost predicate Accurate(t: BinaryTree, n: Node)
    reads t, t.Repr`isRoot, t.Repr`depth, n`minDepth, n`maxDepth
  {
    Nodes(Sub(t.shape, n)) <= t.Repr &&
    n.minDepth == AuxMin(Sub(t.shape, n), Marked(t)) &&
    n.maxDepth == AuxMax(Sub(t.shape, n), Marked(t))
  }

  /** Every summary is accurate except perhaps those of `w` and of its
      ancestors inside the subtree of `a`: the nodes that the climb of
      `_aux_update_depths` from `w` to its auxiliary root `a` refolds. */
  ghost predicate AccurateBut(t: BinaryTree, w: Node, a: Node)
    reads t, t.Repr`isRoot, t.Repr`depth, t.Repr`minDepth, t.Repr`maxDepth
  {
    forall n :: n in t.Repr && n != w ==>
      Accurate(t, n) || (w in Nodes(Sub(t.shape, n)) && n in Nodes(Sub(t.shape, a)))
  }

  /** The summaries of every node, computed under the marks `M`. */
  ghost predicate SummarisedBy(t: BinaryTree, M: set<Node>)
    reads t, t.Repr`depth, t.Repr`minDepth, t.Repr`maxDepth
  {
    forall n :: n in t.Repr ==>
      Nodes(Sub(t.shape, n)) <= t.Repr &&
      n.minDepth == AuxMin(Sub(t.shape, n), M) &&
      n.maxDepth == AuxMax(Sub(t.shape, n), M)
  }

  lemma SummarisedAccurate(t: BinaryTree, w: Node, a: Node)
    ensures Summarised(t) ==> AccurateBut(t, w, a) && SummarisedBy(t, Marked(t))
  {
  }

  /** Refolding `w` when only `w` and its ancestors may be stale makes the
      summary of `w` accurate: its children are not among them. */
  lemma RefoldHere(t: BinaryTree, w: Node, a: Node)
    requires t.Valid() && w in t.Repr && AccurateBut(t, w, a)
    requires w.minDepth == FoldMin(w) && w.maxDepth == FoldMax(w)
    ensures Accurate(t, w)
  {
    Unfold(t, w);
    var S := Sub(t.shape, w);
    if w.left != null {
      assert Accurate(t, w.left) by {
        assert w !in Nodes(S.left);
      }
    }
    if w.right != null {
      assert Accurate(t, w.right) by {
        assert w !in Nodes(S.right);
      }
    }
    SummaryHere(t, w);
  }

  /** One step of the climb: with `w` accurate and its parent `u` refolded,
      `u` is accurate and only `u` and its ancestors inside the subtree of
      `a` may be stale. */
  lemma RefoldParent(t: BinaryTree, w: Node, a: Node)
    requires t.Valid() && w in t.Repr && w.parent != null && Accurate(t, w)
    requires a in t.Repr && w in Nodes(Sub(t.shape, a)) && w != a
    requires forall n :: n in t.Repr && n != w && n != w.parent ==>
      Accurate(t, n) || (w in Nodes(Sub(t.shape, n)) && n in Nodes(Sub(t.shape, a)))
    requires w.parent.minDepth == FoldMin(w.parent) && w.parent.maxDepth == FoldMax(w.parent)
    ensures Accurate(t, w.parent) && AccurateBut(t, w.parent, a)
  {
    var s, u := t.shape, w.parent;
    Climb(t, w);
    Unfold(t, u);
    var S := Sub(s, u);
    if u.left != null && u.left != w {
      assert Accurate(t, u.left) by {
        assert w !in Nodes(S.left);
      }
    }
    if u.right != null && u.right != w {
      assert Accurate(t, u.right) by {
        assert w !in Nodes(S.right);
      }
    }
    SummaryHere(t, u);
    forall n | n in t.Repr && n != u
      ensures Accurate(t, n) || (u in Nodes(Sub(s, n)) && n in Nodes(Sub(s, a)))
    {
      if n != w && !Accurate(t, n) {
        ParentInSub(s, n, w, null);
      }
    }
  }

  /** The climb ends accurate everywhere at the auxiliary root, and off the
      top. */
  lemma RefoldDone(t: BinaryTree, w: Node, a: Node)
    requires t.Valid() && w in t.Repr && Accurate(t, w) && AccurateBut(t, w, a)
    requires w == a || w.parent == null
    ensures Summarised(t)
  {
    var s := t.shape;
    forall n | n in t.Repr && n != w
      ensures Accurate(t, n)
    {
      if !Accurate(t, n) {
        SubDeeper(s, n, w);
        if w == a {
          SubDeeper(s, w, n);
        } else {
          NodeFacts(t, w);
        }
      }
    }
  }

  /** After the flag of `p` changes, with the summaries of the old marks `M`
      in place: the summary of a node is still accurate unless the node is
      a proper ancestor of `p` inside the auxiliary tree that the parent of
      `p` now belongs to. */
  lemma MarkMovedAt(t: BinaryTree, p: Node, M: set<Node>, n: Node)
    requires t.Valid() && p in t.Repr && n in t.Repr
    requires forall x :: x in t.Repr && x != p ==> (x in M <==> x in Marked(t))
    requires Nodes(Sub(t.shape, n)) <= t.Repr
    requires n.minDepth == AuxMin(Sub(t.shape, n), M) && n.maxDepth == AuxMax(Sub(t.shape, n), M)
    ensures Accurate(t, n) ||
      (p.parent != null && p.parent in Nodes(Sub(t.shape, n)) &&
       n in Nodes(Sub(t.shape, AuxRoot(t.shape, p.parent, Marked(t)))))
  {
    var s, M' := t.shape, Marked(t);
    var S := Sub(s, n);
    SubFacts(s, n);
    if p !in Nodes(S) {
      AuxAgree(S, M, M');
    } else if n == p {
      MarkElsewhere(S, p, M, M');
    } else {
      NodeFacts(t, p);
      ParentInSub(s, n, p, null);
      var u := p.parent;
      Climb(t, p);
      SubFacts(s, p);
      assert p in Nodes(Sub(s, u)) && p != u;
      var a := AuxRoot(s, u, M');
      AuxRootFacts(s, u, M');
      if n !in Nodes(Sub(s, a)) {
        AncestorsNest(s, n, a, u);
        SubWithin(s, n, a);
        if a == p {
          SubDeeper(s, p, u);
        }
        assert a != Top(s);
        SubWithin(s, a, u);
        SubOfSub(s, n, a);
        BelowMark(S, a, p, M);
        BelowMark(S, a, p, M');
        MarkElsewhere(S, p, M, M');
      }
    }
  }

  /** After the flag of `p` changes: with no parent every summary is still
      accurate; with a parent only the parent and its ancestors up to its
      auxiliary root may be stale. */
  lemma MarkMoved(t: BinaryTree, p: Node, M: set<Node>)
    requires t.Valid() && p in t.Repr && SummarisedBy(t, M)
    requires forall x :: x in t.Repr && x != p ==> (x in M <==> x in Marked(t))
    ensures p.parent == null ==> Summarised(t)
    ensures p.parent != null ==> AccurateBut(t, p.parent, AuxRoot(t.shape, p.parent, Marked(t)))
  {
    forall n | n in t.Repr
      ensures Accurate(t, n) ||
        (p.parent != null && p.parent in Nodes(Sub(t.shape, n)) &&
         n in Nodes(Sub(t.shape, AuxRoot(t.shape, p.parent, Marked(t)))))
    {
      MarkMovedAt(t, p, M, n);
    }
  }

  // ---------------------------------------------------------------------
  // TangoNode.rotate

  /** The exchange of the `is_root` flags of `x` and `q`. */
  method SwapMarks(ghost t: BinaryTree, x: Node, q: Node)
    requires x in t.Repr && q in t.Repr && x != q
    modifies x`isRoot, q`isRoot
    ensures x.isRoot == old(q.isRoot) && q.isRoot == old(x.isRoot)
    ensures Marked(t) == Swapped(old(Marked(t)), x, q) && RB.Paints(t) == old(RB.Paints(t))
  {
    ghost var M := Marked(t);
    x.isRoot, q.isRoot := q.isRoot, x.isRoot;
    MarksSwapped(t, M, x, q);
  }

  /** A rotation with exchanged marks keeps the summary of every node other
      than `x` and its old parent `q`. */
  lemma RotateOthers(t: BinaryTree, s: Tree, x: Node, q: Node, M: set<Node>)
    requires t.Valid() && Distinct(s) && x in Nodes(s) && x != Top(s) && q == ParentIn(s, x, null)
    requires t.shape == RotateUp(s, x) && t.Repr == Nodes(s)
    requires (x in M ==> q in M) && Marked(t) == Swapped(M, x, q)
    requires forall n :: n in t.Repr && n != x && n != q ==>
      n.minDepth == AuxMin(Sub(s, n), M) && n.maxDepth == AuxMax(Sub(s, n), M)
    ensures forall n :: n in t.Repr && n != x && n != q ==>
      n.minDepth == AuxMin(Sub(t.shape, n), Marked(t)) && n.maxDepth == AuxMax(Sub(t.shape, n), Marked(t))
  {
    forall n | n in t.Repr && n != x && n != q
      ensures n.minDepth == AuxMin(Sub(t.shape, n), Marked(t)) && n.maxDepth == AuxMax(Sub(t.shape, n), Marked(t))
    {
      RotateAuxAt(s, x, q, M, n);
    }
  }

  /** After a rotation of `x` over `q`, `x` is the parent of `q`. */
  lemma RotatedParent(t: BinaryTree, s: Tree, x: Node, q: Node)
    requires t.Valid() && Distinct(s) && x in Nodes(s) && x != Top(s) && q == ParentIn(s, x, null)
    requires t.shape == RotateUp(s, x) && t.Repr == Nodes(s)
    ensures x in t.Repr && q in t.Repr && (x.left == q || x.right == q) && q.left != x && q.right != x
  {
    var s' := t.shape;
    RotateDepth(s, x);
    SubFacts(s', x);
    ChildFacts(s', null, x);
    Unfold(t, x);
    Unfold(t, q);
    assert q == Top(Sub(s', x).left) || q == Top(Sub(s', x).right);
  }

  /** Every subtree of a valid tree lies within it. */
  lemma SubsInside(t: BinaryTree)
    requires t.Valid()
    ensures forall n :: n in t.Repr ==> Nodes(Sub(t.shape, n)) <= t.Repr
  {
    forall n | n in t.Repr
      ensures Nodes(Sub(t.shape, n)) <= t.Repr
    {
      SubFacts(t.shape, n);
    }
  }

  /** After a rotation of `x` over `q` with exchanged marks, correct
      summaries elsewhere and freshly folded ones at `q`, then `x`, make all
      summaries correct again. */
  lemma RotateSummaries(t: BinaryTree, s: Tree, x: Node, q: Node, M: set<Node>)
    requires t.Valid() && Distinct(s) && x in Nodes(s) && x != Top(s) && q == ParentIn(s, x, null)
    requires t.shape == RotateUp(s, x) && t.Repr == Nodes(s)
    requires (x in M ==> q in M) && Marked(t) == Swapped(M, x, q)
    requires forall n :: n in t.Repr && n != x && n != q ==>
      n.minDepth == AuxMin(Sub(s, n), M) && n.maxDepth == AuxMax(Sub(s, n), M)
    requires q.minDepth == FoldMin(q) && q.maxDepth == FoldMax(q)
    requires x.minDepth == FoldMin(x) && x.maxDepth == FoldMax(x)
    ensures Summarised(t)
  {
    RotateOthers(t, s, x, q, M);
    RotatedParent(t, s, x, q);
    SummaryBelow(t, q, x);
    SummaryBelow(t, x, x);
    SubsInside(t);
  }

  /** `SummaryHere` at `y`, where every node other than `y` and `x` has a
      correct summary and `x`, if it is a child of `y`, too. */
  lemma SummaryBelow(t: BinaryTree, y: Node, x: Node)
    requires t.Valid() && y in t.Repr && x in t.Repr
    requires forall n :: n in t.Repr && n != x && n != y ==>
      n.minDepth == AuxMin(Sub(t.shape, n), Marked(t)) && n.maxDepth == AuxMax(Sub(t.shape, n), Marked(t))
    requires x != y && (y.left == x || y.right == x) ==>
      x.minDepth == AuxMin(Sub(t.shape, x), Marked(t)) && x.maxDepth == AuxMax(Sub(t.shape, x), Marked(t))
    requires y.minDepth == FoldMin(y) && y.maxDepth == FoldMax(y)
    ensures y.minDepth == AuxMin(Sub(t.shape, y), Marked(t)) && y.maxDepth == AuxMax(Sub(t.shape, y), Marked(t))
  {
    Unfold(t, y);
    SummaryHere(t, y);
  }

  /** The marks after `SwapMarks` of `x` and `q`, where `M` were the marks
      before. */
  lemma MarksSwapped(t: BinaryTree, M: set<Node>, x: Node, q: Node)
    requires x in t.Repr && q in t.Repr && x != q && M <= t.Repr
    requires forall n :: n in t.Repr && n != x && n != q ==> (n.isRoot <==> n in M)
    requires (x.isRoot <==> q in M) && (q.isRoot <==> x in M)
    ensures Marked(t) == Swapped(M, x, q)
  {
  }

  /** `rotate` of a node with a parent: `Rotation.Lift`, the exchange of
      `is_root` between `x` and its old parent, and `_update_depths` of the
      old parent, then of `x`. Besides the pointers only the two flags and
      the two summaries change, and these are refolded. */
  method TangoLift(x: Node, t: BinaryTree)
    requires t.Valid() && x in t.Repr && x.parent != null
    modifies t, t.Repr`parent, t.Repr`left, t.Repr`right, t.Repr`tree, t.Repr`isRoot, t.Repr`minDepth, t.Repr`maxDepth
    ensures t.Valid() && t.Repr == old(t.Repr) && InOrder(t.shape) == old(InOrder(t.shape))
    ensures t.shape == RotateUp(old(t.shape), x)
    ensures x.parent == old(x.parent.parent) && old(x.parent).parent == x
    ensures old(x.parent.left) == x ==>
      x.right == old(x.parent) && x.left == old(x.left) &&
      old(x.parent).left == old(x.right) && old(x.parent).right == old(x.parent.right)
    ensures old(x.parent.left) != x ==>
      x.left == old(x.parent) && x.right == old(x.right) &&
      old(x.parent).right == old(x.left) && old(x.parent).left == old(x.parent.left)
    ensures Depth(t.shape, x) + 1 == old(Depth(t.shape, x))
    ensures t.root == if old(x.parent.parent) == null then x else old(t.root)
    ensures x.isRoot == old(x.parent.isRoot) && old(x.parent).isRoot == old(x.isRoot)
    ensures forall n :: n in t.Repr && n != x && n != old(x.parent) ==>
      n.isRoot == old(n.isRoot) && n.minDepth == old(n.minDepth) && n.maxDepth == old(n.maxDepth)
    ensures x.minDepth == FoldMin(x) && x.maxDepth == FoldMax(x)
    ensures old(x.parent).minDepth == FoldMin(old(x.parent)) && old(x.parent).maxDepth == FoldMax(old(x.parent))
    ensures x.minDepth <= x.depth <= x.maxDepth
    ensures old(x.parent).minDepth <= old(x.parent).depth <= old(x.parent).maxDepth
  {
    var q := x.parent;
    ghost var s := t.shape;
    NodeFacts(t, x);
    ParentFacts(s, null, x);
    Lift(x, t);
    Exchange(t, s, x, q);
  }

  /** `_update_depths` of the old parent `q`, then of `x` above it. */
  method Refresh(t: BinaryTree, x: Node, q: Node)
    requires t.Valid() && x in t.Repr && q in t.Repr && x != q
    requires (x.left == q || x.right == q) && q.left != x && q.right != x
    modifies q`minDepth, q`maxDepth, x`minDepth, x`maxDepth
    ensures q.minDepth == FoldMin(q) && q.maxDepth == FoldMax(q)
    ensures x.minDepth == FoldMin(x) && x.maxDepth == FoldMax(x)
    ensures q.minDepth <= q.depth <= q.maxDepth && x.minDepth <= x.depth <= x.maxDepth
    ensures Marked(t) == old(Marked(t)) && RB.Paints(t) == old(RB.Paints(t))
  {
    Unfold(t, q);
    UpdateDepths(t, q);
    Unfold(t, x);
    UpdateDepths(t, x);
  }

  /** What follows the rotation primitive in `rotate`: the exchange of the
      flags, then `Refresh`. */
  method Exchange(t: BinaryTree, ghost s: Tree, x: Node, q: Node)
    requires t.Valid() && Distinct(s) && x in Nodes(s) && x != Top(s) && q == ParentIn(s, x, null)
    requires t.shape == RotateUp(s, x) && t.Repr == Nodes(s)
    modifies x`isRoot, q`isRoot, x`minDepth, x`maxDepth, q`minDepth, q`maxDepth
    ensures t.Valid()
    ensures x.isRoot == old(q.isRoot) && q.isRoot == old(x.isRoot)
    ensures q.minDepth == FoldMin(q) && q.maxDepth == FoldMax(q)
    ensures x.minDepth == FoldMin(x) && x.maxDepth == FoldMax(x)
    ensures q.minDepth <= q.depth <= q.maxDepth && x.minDepth <= x.depth <= x.maxDepth
    ensures Marked(t) == Swapped(old(Marked(t)), x, q) && RB.Paints(t) == old(RB.Paints(t))
  {
    RotatedParent(t, s, x, q);
    SwapMarks(t, x, q);
    Refresh(t, x, q);
  }

  /** `TangoNode.rotate`: without a parent nothing happens; otherwise
      `TangoLift`. The marks are exchanged between `x` and its old parent,
      and when a marked `x` had a marked parent, correct summaries stay
      correct. */
  method TangoRotate(x: Node, t: BinaryTree)
    requires t.Valid() && x in t.Repr
    modifies t, t.Repr`parent, t.Repr`left, t.Repr`right, t.Repr`tree, t.Repr`isRoot, t.Repr`minDepth, t.Repr`maxDepth
    ensures t.Valid() && t.Repr == old(t.Repr) && InOrder(t.shape) == old(InOrder(t.shape))
    ensures t.shape == RotateUp(old(t.shape), x)
    ensures old(x.parent) == null ==> unchanged(t) && unchanged(t.Repr)
    ensures old(x.parent) != null ==>
      x.parent == old(x.parent.parent) && old(x.parent).parent == x &&
      t.root == (if old(x.parent.parent) == null then x else old(t.root)) &&
      Marked(t) == Swapped(old(Marked(t)), x, old(x.parent)) &&
      x.minDepth <= x.depth <= x.maxDepth
    ensures old(Summarised(t)) && (old(x.isRoot) && old(x.parent) != null ==> old(x.parent.isRoot)) ==>
      Summarised(t)
  {
    if x.parent == null {
      NodeFacts(t, x);
      RotateAtTop(t.shape);
      return;
    }
    var q := x.parent;
    ghost var s, M := t.shape, Marked(t);
    ghost var keep := Summarised(t) && (x.isRoot ==> q.isRoot);
    NodeFacts(t, x);
    ParentFacts(s, null, x);
    TangoLift(x, t);
    MarksSwapped(t, M, x, q);
    if keep {
      RotateSummaries(t, s, x, q, M);
    }
  }

  // ---------------------------------------------------------------------
  // Walking inside one auxiliary tree

  /** One step of `_aux_search` for `key` in the auxiliary part `A` below
      `root`, at a node `p` of it below which every node of `A` holding
      `key` lies: the child towards `key` either continues the auxiliary
      tree, and then it is a node of `A` with the same property and a
      smaller subtree, or it does not, and then no node of `A` holds `key`. */
  lemma SearchStep(t: BinaryTree, root: Node, p: Node, key: int)
    requires t.Valid() && root in t.Repr
    requires p in AuxPart(Sub(t.shape, root), Marked(t)) && p.key != key
    requires forall n :: n in AuxPart(Sub(t.shape, root), Marked(t)) && n.key == key ==>
      n in AuxPart(Sub(t.shape, p), Marked(t))
    ensures var c := if p.key < key then p.right else p.left;
      (!IsRootOrNone(c) ==>
        c in AuxPart(Sub(t.shape, root), Marked(t)) && c in t.Repr &&
        Size(Sub(t.shape, c)) < Size(Sub(t.shape, p)) &&
        forall n :: n in AuxPart(Sub(t.shape, root), Marked(t)) && n.key == key ==>
          n in AuxPart(Sub(t.shape, c), Marked(t))) &&
      (IsRootOrNone(c) ==> forall n :: n in AuxPart(Sub(t.shape, root), Marked(t)) ==> n.key != key)
  {
    var S, M := Sub(t.shape, p), Marked(t);
    PartWithin(t, root, p);
    Unfold(t, p);
    AuxPartNodes(S.left, M);
    AuxPartNodes(S.right, M);
  }

  /** `n` lies beyond `q` in the direction `right` names. */
  ghost predicate Beyond(q: Node, n: Node, right: bool)
  {
    if right then q.key < n.key else n.key < q.key
  }

  /** One step of the walk of `_find_predecessor` (`right`) or
      `_find_successor` (not `right`) to the far end of the auxiliary part
      `A` below `c`, at a node `q` of it below which every node of `A`
      beyond `q` lies. */
  lemma EndStep(t: BinaryTree, c: Node, q: Node, right: bool)
    requires t.Valid() && c in t.Repr && q in AuxPart(Sub(t.shape, c), Marked(t))
    requires forall n :: n in AuxPart(Sub(t.shape, c), Marked(t)) && Beyond(q, n, right) ==>
      n in AuxPart(Sub(t.shape, q), Marked(t))
    ensures var d := if right then q.right else q.left;
      (!IsRootOrNone(d) ==>
        d in AuxPart(Sub(t.shape, c), Marked(t)) && d in t.Repr &&
        Size(Sub(t.shape, d)) < Size(Sub(t.shape, q)) &&
        forall n :: n in AuxPart(Sub(t.shape, c), Marked(t)) && Beyond(d, n, right) ==>
          n in AuxPart(Sub(t.shape, d), Marked(t))) &&
      (IsRootOrNone(d) ==> forall n :: n in AuxPart(Sub(t.shape, c), Marked(t)) ==> !Beyond(q, n, right))
  {
    var S, M := Sub(t.shape, q), Marked(t);
    PartWithin(t, c, q);
    Unfold(t, q);
    AuxPartNodes(S.left, M);
    AuxPartNodes(S.right, M);
  }

  /** The climb of `_find_predecessor` from `p0` has only met nodes, below
      `w`, whose keys below `p0.key` are in the left subtree of `p0`. */
  ghost predicate LeftOnly(s: Tree, w: Node, p0: Node)
  {
    Sub(s, p0).Br? &&
    forall n :: n in Nodes(Sub(s, w)) && n.key < p0.key ==> n in Nodes(Sub(s, p0).left)
  }

  /** The mirror of `LeftOnly` for `_find_successor`. */
  ghost predicate RightOnly(s: Tree, w: Node, p0: Node)
  {
    Sub(s, p0).Br? &&
    forall n :: n in Nodes(Sub(s, w)) && p0.key < n.key ==> n in Nodes(Sub(s, p0).right)
  }

  /** Where both climbs start. */
  lemma ClimbStart(t: BinaryTree, p0: Node)
    requires t.Valid() && p0 in t.Repr
    ensures LeftOnly(t.shape, p0, p0) && RightOnly(t.shape, p0, p0)
    ensures p0 in AuxPart(Sub(t.shape, p0), Marked(t))
    ensures AuxRoot(t.shape, p0, Marked(t)) in t.Repr
  {
    Unfold(t, p0);
    AuxPartNodes(Sub(t.shape, p0), Marked(t));
    AuxRootFacts(t.shape, p0, Marked(t));
  }

  /** Without a continuing left child, the part below `p0` holds no smaller
      key; without a continuing right child, no larger one. */
  lemma PartBeside(t: BinaryTree, p0: Node, n: Node)
    requires t.Valid() && p0 in t.Repr && n in AuxPart(Sub(t.shape, p0), Marked(t))
    ensures IsRootOrNone(p0.left) ==> p0.key <= n.key
    ensures IsRootOrNone(p0.right) ==> n.key <= p0.key
  {
    var S, M := Sub(t.shape, p0), Marked(t);
    Unfold(t, p0);
    AuxPartNodes(S.left, M);
    AuxPartNodes(S.right, M);
  }

  /** The climb has reached a marked `w`: that is the auxiliary root of
      `p0`, the search for `p0.key` from it finds `p0`, and no node of the
      auxiliary tree has a smaller key (`left`) or a larger one (not `left`). */
  lemma ClimbAtRoot(t: BinaryTree, p0: Node, w: Node, q: Node, left: bool)
    requires t.Valid() && p0 in t.Repr && w in t.Repr && w.isRoot
    requires AuxRoot(t.shape, w, Marked(t)) == AuxRoot(t.shape, p0, Marked(t))
    requires p0 in AuxPart(Sub(t.shape, w), Marked(t))
    requires left ==> LeftOnly(t.shape, w, p0) && IsRootOrNone(p0.left)
    requires !left ==> RightOnly(t.shape, w, p0) && IsRootOrNone(p0.right)
    requires q in AuxPart(Sub(t.shape, w), Marked(t))
    requires q.key != p0.key ==> forall n :: n in AuxPart(Sub(t.shape, w), Marked(t)) ==> n.key != p0.key
    ensures q == p0
    ensures left ==> forall n :: n in Aux(t, p0) ==> p0.key <= n.key
    ensures !left ==> forall n :: n in Aux(t, p0) ==> n.key <= p0.key
  {
    var s, M := t.shape, Marked(t);
    SubFacts(s, w);
    AuxPartNodes(Sub(s, w), M);
    KeyIdentifies(s, q, p0);
    AuxRootFacts(s, w, M);
    forall n | n in Aux(t, p0)
      ensures left ==> p0.key <= n.key
      ensures !left ==> n.key <= p0.key
    {
      if left && n.key < p0.key {
        InsidePart(t, w, p0, n);
        PartBeside(t, p0, n);
      }
      if !left && p0.key < n.key {
        InsidePart(t, w, p0, n);
        PartBeside(t, p0, n);
      }
    }
  }

  /** The climb has reached an unmarked structural root: it is the
      auxiliary root, and it is not marked. */
  lemma ClimbOffTop(t: BinaryTree, w: Node)
    requires t.Valid() && w in t.Repr && w.parent == null && !w.isRoot
    ensures AuxRoot(t.shape, w, Marked(t)) == w && w !in Marked(t)
  {
    NodeFacts(t, w);
    AuxRootTop(t.shape, Marked(t));
  }

  /** The climb of `_find_predecessor` arrives from a right child: the
      parent is the predecessor of `p0` in its auxiliary tree. */
  lemma ParentPrecedes(t: BinaryTree, p0: Node, w: Node)
    requires t.Valid() && p0 in t.Repr && w in t.Repr && !w.isRoot && w.parent != null && w.parent.right == w
    requires AuxRoot(t.shape, w, Marked(t)) == AuxRoot(t.shape, p0, Marked(t))
    requires p0 in AuxPart(Sub(t.shape, w), Marked(t))
    requires LeftOnly(t.shape, w, p0) && IsRootOrNone(p0.left)
    ensures PredecessorIn(Aux(t, p0), p0, w.parent) && w.parent in t.Repr
  {
    var s, M, u := t.shape, Marked(t), w.parent;
    Climb(t, w);
    Unfold(t, u);
    var a := AuxRoot(s, p0, M);
    AuxRootFacts(s, p0, M);
    AuxRootFacts(s, u, M);
    SubFacts(s, a);
    SubFacts(s, u);
    SubBst(s, u);
    BstParts(Sub(s, u));
    AuxPartNodes(Sub(s, w), M);
    AuxPartNodes(Sub(s, a), M);
    forall n | n in Aux(t, p0) && u.key < n.key < p0.key
      ensures false
    {
      BetweenInSub(s, u, u, p0, n);
      InsidePart(t, a, p0, n);
      PartBeside(t, p0, n);
    }
  }

  /** The mirror of `ParentPrecedes` for `_find_successor`. */
  lemma ParentSucceeds(t: BinaryTree, p0: Node, w: Node)
    requires t.Valid() && p0 in t.Repr && w in t.Repr && !w.isRoot && w.parent != null && w.parent.left == w
    requires AuxRoot(t.shape, w, Marked(t)) == AuxRoot(t.shape, p0, Marked(t))
    requires p0 in AuxPart(Sub(t.shape, w), Marked(t))
    requires RightOnly(t.shape, w, p0) && IsRootOrNone(p0.right)
    ensures SuccessorIn(Aux(t, p0), p0, w.parent) && w.parent in t.Repr
  {
    var s, M, u := t.shape, Marked(t), w.parent;
    Climb(t, w);
    Unfold(t, u);
    var a := AuxRoot(s, p0, M);
    AuxRootFacts(s, p0, M);
    AuxRootFacts(s, u, M);
    SubFacts(s, a);
    SubFacts(s, u);
    SubBst(s, u);
    BstParts(Sub(s, u));
    AuxPartNodes(Sub(s, w), M);
    AuxPartNodes(Sub(s, a), M);
    forall n | n in Aux(t, p0) && p0.key < n.key < u.key
      ensures false
    {
      BetweenInSub(s, u, p0, u, n);
      InsidePart(t, a, p0, n);
      PartBeside(t, p0, n);
    }
  }

  /** The climb moves up from a left child (`left`) or a right child (not
      `left`): the invariant carries over to the parent. */
  lemma ClimbOn(t: BinaryTree, p0: Node, w: Node, left: bool)
    requires t.Valid() && p0 in t.Repr && w in t.Repr && !w.isRoot && w.parent != null
    requires left ==> w.parent.left == w && LeftOnly(t.shape, w, p0)
    requires !left ==> w.parent.right == w && RightOnly(t.shape, w, p0)
    requires p0 in AuxPart(Sub(t.shape, w), Marked(t))
    ensures p0 in AuxPart(Sub(t.shape, w.parent), Marked(t))
    ensures left ==> LeftOnly(t.shape, w.parent, p0)
    ensures !left ==> RightOnly(t.shape, w.parent, p0)
    ensures AuxRoot(t.shape, w.parent, Marked(t)) == AuxRoot(t.shape, w, Marked(t))
    ensures Depth(t.shape, w.parent) < Depth(t.shape, w)
  {
    var s, M, u := t.shape, Marked(t), w.parent;
    Climb(t, w);
    Unfold(t, u);
    SubFacts(s, w);
    SubFacts(s, u);
    SubBst(s, u);
    BstParts(Sub(s, u));
    AuxPartNodes(Sub(s, w), M);
  }

  /** The predecessor found below: the largest key of the auxiliary part of
      a continuing left child of `p` is the predecessor of `p` in its
      auxiliary tree. */
  lemma PredecessorBelow(t: BinaryTree, p: Node, q: Node)
    requires t.Valid() && p in t.Repr && !IsRootOrNone(p.left)
    requires q in AuxPart(Sub(t.shape, p.left), Marked(t))
    requires forall n :: n in AuxPart(Sub(t.shape, p.left), Marked(t)) ==> n.key <= q.key
    ensures PredecessorIn(Aux(t, p), p, q)
  {
    var s, M := t.shape, Marked(t);
    var a := AuxRoot(s, p, M);
    AuxRootFacts(s, p, M);
    SubFacts(s, a);
    PartWithin(t, a, p);
    Unfold(t, p);
    AuxPartNodes(Sub(s, p.left), M);
    AuxPartNodes(Sub(s, a), M);
    forall n | n in Aux(t, p) && q.key < n.key < p.key
      ensures false
    {
      BetweenInSub(s, p, q, p, n);
      InsidePart(t, a, p, n);
      AuxPartNodes(Sub(s, p).right, M);
    }
  }

  /** The mirror of `PredecessorBelow` for `_find_successor`. */
  lemma SuccessorBelow(t: BinaryTree, p: Node, q: Node)
    requires t.Valid() && p in t.Repr && !IsRootOrNone(p.right)
    requires q in AuxPart(Sub(t.shape, p.right), Marked(t))
    requires forall n :: n in AuxPart(Sub(t.shape, p.right), Marked(t)) ==> q.key <= n.key
    ensures SuccessorIn(Aux(t, p), p, q)
  {
    var s, M := t.shape, Marked(t);
    var a := AuxRoot(s, p, M);
    AuxRootFacts(s, p, M);
    SubFacts(s, a);
    PartWithin(t, a, p);
    Unfold(t, p);
    AuxPartNodes(Sub(s, p.right), M);
    AuxPartNodes(Sub(s, a), M);
    forall n | n in Aux(t, p) && p.key < n.key < q.key
      ensures false
    {
      BetweenInSub(s, p, p, q, n);
      InsidePart(t, a, p, n);
      AuxPartNodes(Sub(s, p).left, M);
    }
  }

  // ---------------------------------------------------------------------
  // The walks of `_cut`

  /** Every node of `S` lies before `n` in key order (`left`), or after it. */
  ghost predicate Outside(n: Node, S: Tree, left: bool)
  {
    forall k :: k in Nodes(S) ==> if left then k.key < n.key else n.key < k.key
  }

  /** `x` is the node of `A` deeper than `d` with the least key (`left`) or
      the greatest key. */
  ghost predicate Deepest(A: set<Node>, x: Node, d: int, left: bool)
    reads A
  {
    x in A && x.depth > d &&
    forall n :: n in A && n.depth > d ==> if left then x.key <= n.key else n.key <= x.key
  }

  /** The walk for `l` (`left`) or `r` at `p` inside the part `A`: the part
      below `p` reaches below depth `d`, and every node of `A` deeper than
      `d` outside it lies beyond the whole subtree of `p`. */
  ghost predicate Walking(t: BinaryTree, A: set<Node>, p: Node, d: int, left: bool)
    reads t, t.Repr
  {
    t.Valid() && p in t.Repr && A <= t.Repr && Nodes(Sub(t.shape, p)) <= t.Repr &&
    p in A && AuxPart(Sub(t.shape, p), Marked(t)) <= A &&
    AuxMax(Sub(t.shape, p), Marked(t)) > d &&
    forall n :: n in A && n.depth > d && n !in AuxPart(Sub(t.shape, p), Marked(t)) ==> Outside(n, Sub(t.shape, p), left)
  }

  lemma WalkStart(t: BinaryTree, p: Node, d: int, left: bool)
    requires t.Valid() && p in t.Repr && Summarised(t) && p.maxDepth > d
    ensures Walking(t, AuxPart(Sub(t.shape, p), Marked(t)), p, d, left)
  {
    Unfold(t, p);
    AuxPartNodes(Sub(t.shape, p), Marked(t));
  }

  /** Going into the near child, which continues the part and reaches
      below depth `d`, keeps the walk. */
  lemma WalkNear(t: BinaryTree, A: set<Node>, p: Node, d: int, left: bool)
    requires Walking(t, A, p, d, left) && Summarised(t)
    requires var near := if left then p.left else p.right;
      !IsRootOrNone(near) && near.maxDepth > d
    ensures Walking(t, A, if left then p.left else p.right, d, left)
  {
    var S, M := Sub(t.shape, p), Marked(t);
    Unfold(t, p);
    var near, N, F := if left then p.left else p.right, if left then S.left else S.right, if left then S.right else S.left;
    AuxPartNodes(N, M);
    AuxPartNodes(F, M);
    forall n | n in A && n.depth > d && n !in AuxPart(N, M)
      ensures Outside(n, N, left)
    {
    }
  }

  /** Crossing to the far child, when `p` and the near side hold nothing
      deeper than `d`, keeps the walk: the far child continues the part. */
  lemma WalkFar(t: BinaryTree, A: set<Node>, p: Node, d: int, left: bool)
    requires Walking(t, A, p, d, left) && Summarised(t) && p.depth <= d
    requires var near := if left then p.left else p.right;
      IsRootOrNone(near) || near.maxDepth <= d
    ensures var far := if left then p.right else p.left;
      !IsRootOrNone(far) && Walking(t, A, far, d, left)
  {
    var S, M := Sub(t.shape, p), Marked(t);
    Unfold(t, p);
    var near, N, F := if left then p.left else p.right, if left then S.left else S.right, if left then S.right else S.left;
    AuxPartNodes(N, M);
    AuxPartNodes(F, M);
    AuxExtremes(S, M);
    if Joined(N, M) {
      AuxExtremes(N, M);
    }
    if Joined(F, M) {
      AuxExtremes(F, M);
    }
    forall n | n in A && n.depth > d && n !in AuxPart(F, M)
      ensures Outside(n, F, left)
    {
    }
  }

  /** Stopping at `p`, deeper than `d` with nothing deeper on the near
      side, finds the extreme node. */
  lemma WalkFound(t: BinaryTree, A: set<Node>, p: Node, d: int, left: bool)
    requires Walking(t, A, p, d, left) && Summarised(t) && p.depth > d
    requires var near := if left then p.left else p.right;
      IsRootOrNone(near) || near.maxDepth <= d
    ensures Deepest(A, p, d, left)
  {
    var S, M := Sub(t.shape, p), Marked(t);
    Unfold(t, p);
    var near, N, F := if left then p.left else p.right, if left then S.left else S.right, if left then S.right else S.left;
    AuxPartNodes(N, M);
    AuxPartNodes(F, M);
    if Joined(N, M) {
      AuxExtremes(N, M);
    }
    forall n | n in A && n.depth > d
      ensures if left then p.key <= n.key else n.key <= p.key
    {
    }
  }

  /** A search of the auxiliary tree of `p` for the key of `p` finds `p`. */
  lemma Refound(t: BinaryTree, p: Node, root: Node, q: Node)
    requires t.Valid() && p in t.Repr && q in t.Repr && root == AuxRoot(t.shape, p, Marked(t))
    requires q.key != p.key ==> forall n :: n in AuxPart(Sub(t.shape, root), Marked(t)) ==> n.key != p.key
    ensures q == p
  {
    AuxRootFacts(t.shape, p, Marked(t));
    SameNode(t, p, q);
  }

  /** Two nodes of the tree with the same key are the same node: the walks
      of `_aux_concatenate` and `_cut` find nodes again by their keys. */
  lemma SameNode(t: BinaryTree, a: Node, b: Node)
    requires t.Valid() && a in t.Repr && b in t.Repr && a.key == b.key
    ensures a == b
  {
    KeyIdentifies(t.shape, a, b);
  }

  // ---------------------------------------------------------------------
  // The red-black rules of the auxiliary trees

  /** The pointer record of `t` cut into its auxiliary trees. */
  ghost function Cuts(t: BinaryTree): map<Node, Links>
    reads t, t.Repr`isRoot
  {
    View(t.links, Marked(t))
  }

  /** The root of the whole tree roots an auxiliary tree, so every node
      without a parent in `Cuts` is marked. */
  ghost predicate RootMarked(t: BinaryTree)
    reads t, t.Repr`isRoot
  {
    t.root == null || t.root in Marked(t)
  }

  /** What `_insert_fixup` keeps while it climbs: `p` is red, the rules
      hold on every auxiliary tree except that `p` may be the red child of
      a red parent, and every other marked node is black. */
  ghost predicate Ready(t: BinaryTree, p: Node)
    reads t, t.Repr`isRoot, t.Repr`color, t.Repr`bh
  {
    RB.Repair(Cuts(t), RB.Paints(t), p) && TopsBlack(Marked(t), RB.Paints(t), p) && RootMarked(t)
  }

  /** Every auxiliary tree is a red-black tree with a black root. */
  ghost predicate AuxRedBlack(t: BinaryTree)
    reads t, t.Repr`isRoot, t.Repr`color, t.Repr`bh
  {
    RB.Balanced(Cuts(t), RB.Paints(t), null) && TopsBlack(Marked(t), RB.Paints(t), null) && RootMarked(t)
  }

  /** A child slot as the auxiliary tree sees it: a marked child is none. */
  ghost function Continuing(n: Node?): Node?
    reads n
  {
    if IsRootOrNone(n) then null else n
  }

  /** What `_aux_concatenate` expects at `p`: `p` roots its auxiliary tree,
      the rules hold there below `p` (the roots of the two subtrees may be
      red), every other auxiliary tree is red-black with a black root, and
      the root is marked. */
  ghost predicate Concatenable(t: BinaryTree, p: Node)
    reads t, t.Repr`isRoot, t.Repr`color, t.Repr`bh
  {
    p in t.Repr && p.isRoot && RB.Offside(Cuts(t), RB.Paints(t), p) &&
    TopsBlack(Marked(t), RB.Paints(t), p) && RootMarked(t)
  }

  /** What the sinking loops of `_aux_concatenate` keep: the rules hold
      with `x` spliced out of its auxiliary tree (`RB.Sunk`), the marked
      nodes but `x` are black, the root is marked, and a marked `x` carries
      a black child, which takes over the mark when it rotates above `x`. */
  ghost predicate Sinkable(t: BinaryTree, x: Node, onLeft: bool)
    reads t, x, t.Repr`isRoot, t.Repr`color, t.Repr`bh
  {
    x in t.Repr && RB.Sunk(Cuts(t), RB.Paints(t), x, onLeft) &&
    TopsBlack(Marked(t), RB.Paints(t), x) && RootMarked(t) &&
    var k := if onLeft then x.left else x.right;
    x.isRoot && k != null ==> k in RB.Paints(t) && RB.Paints(t)[k].color == Black
  }

  /** The cut record of a node, read off its fields: a marked node has no
      parent there and a marked child is no child. */
  lemma CutsAt(t: BinaryTree, n: Node)
    requires t.Valid() && n in t.Repr
    ensures n in Cuts(t) && RB.Treelike(Cuts(t))
    ensures Cuts(t)[n].parent == (if n.isRoot then null else n.parent)
    ensures Cuts(t)[n].left == (if IsRootOrNone(n.left) then null else n.left)
    ensures Cuts(t)[n].right == (if IsRootOrNone(n.right) then null else n.right)
  {
    RB.ChildOf(t, n);
    FieldsAt(t, n);
    RB.Parented(t);
    ViewTreelike(t.links, Marked(t));
  }

  /** The nodes a rotation of `x` touches, in the pointer record. */
  lemma PivotAt(t: BinaryTree, x: Node)
    requires t.Valid() && x in t.Repr && x.parent != null
    ensures Pivot(t.links, x)
  {
    RotatePre(t, x);
    RB.Parented(t);
    FieldsAt(t, x);
    FieldsAt(t, x.parent);
    if x.parent.parent != null {
      FieldsAt(t, x.parent.parent);
    }
  }


  /** Below a repair in progress at an unmarked `p`, `p` has a parent, and
      a red parent is unmarked (the marked nodes other than `p` are black)
      and so has a parent of its own (the root is marked). */
  lemma ReadyParent(t: BinaryTree, p: Node)
    requires t.Valid() && p in t.Repr && Ready(t, p) && !p.isRoot
    ensures p.parent != null && p.parent in t.Repr
    ensures p.parent.color == Red ==> !p.parent.isRoot && p.parent.parent != null
  {
    RB.IsRoot(t, p);
    RB.IsRoot(t, p.parent);
    assert RB.Paints(t)[p.parent] == RB.Paint(p.parent.color, p.parent.bh);
  }

  /** `TurnOuter`'s repair step on the cut record: an unmarked inner child
      `p` with a red parent rotates above it, within their auxiliary tree. */
  lemma TurnCut(t: BinaryTree, p: Node)
    requires t.Valid() && p in t.Repr && p.parent != null && p.parent.parent != null
    requires (p.parent == p.parent.parent.left && p == p.parent.right) ||
             (p.parent == p.parent.parent.right && p == p.parent.left)
    requires Ready(t, p) && !p.isRoot && p.parent.color == Red
    ensures !p.parent.isRoot
    ensures RB.Repair(Rewire(Cuts(t), p), RB.Paints(t), p.parent)
  {
    var q := p.parent;
    var g := q.parent;
    var c := RB.Paints(t);
    RB.DepthStep(t, p);
    RB.DepthStep(t, q);
    if g.parent != null {
      RB.DepthStep(t, g);
    }
    assert c[q] == RB.Paint(q.color, q.bh);
    CutsAt(t, p);
    CutsAt(t, q);
    CutsAt(t, g);
    RB.TurnKeeps(Cuts(t), c, p, q, g);
  }

  /** `Promote`'s repair step on the cut record: the red unmarked parent
      `u` of an outer child `x` rotates above the grandparent `g`, which
      may be marked. */
  lemma PromoteCut(t: BinaryTree, x: Node, y: Node?)
    requires t.Valid() && x in t.Repr && x.parent != null && x.parent.parent != null
    requires (x == x.parent.left && x.parent == x.parent.parent.left && y == x.parent.parent.right) ||
             (x == x.parent.right && x.parent == x.parent.parent.right && y == x.parent.parent.left)
    requires Ready(t, x) && !x.isRoot && x.parent.color == Red && (y == null || y.color != Red)
    ensures x.parent in t.Repr && x.parent.parent in t.Repr && !x.parent.isRoot
    ensures RB.Repair(Rewire(Cuts(t), x.parent), RB.Promoted(RB.Paints(t), x.parent, x.parent.parent), x)
  {
    var u := x.parent;
    var g := u.parent;
    var c := RB.Paints(t);
    RB.DepthStep(t, x);
    RB.DepthStep(t, u);
    RB.ChildOf(t, u);
    RB.ChildOf(t, g);
    if u.left != null {
      RB.DepthStep(t, u.left);
    }
    if u.right != null {
      RB.DepthStep(t, u.right);
    }
    if g.parent != null {
      RB.DepthStep(t, g);
    }
    assert c[u] == RB.Paint(u.color, u.bh);
    CutsAt(t, x);
    CutsAt(t, u);
    CutsAt(t, g);
    var yv := if IsRootOrNone(y) then null else y;
    assert y != null ==> c[y] == RB.Paint(y.color, y.bh);
    RB.PromoteKeeps(Cuts(t), c, x, u, g, yv);
  }

  /** `Recolor`'s repair step on the cut record: parent and uncle are red,
      so both are unmarked, and the repair moves to the grandparent. */
  lemma RecolorCut(t: BinaryTree, p: Node, y: Node)
    requires t.Valid() && p in t.Repr && p.parent != null && p.parent.parent != null
    requires y == p.parent.parent.left || y == p.parent.parent.right
    requires y != p.parent && Ready(t, p) && !p.isRoot && p.parent.color == Red && y.color == Red
    ensures p.parent in t.Repr && p.parent.parent in t.Repr && y in t.Repr
    ensures !p.parent.isRoot && !y.isRoot
    ensures RB.Repair(Cuts(t), RB.Recoloured(RB.Paints(t), p.parent, y, p.parent.parent), p.parent.parent)
  {
    var q := p.parent;
    var g := q.parent;
    var c := RB.Paints(t);
    RB.RecolorFacts(t, p, y);
    RB.ChildOf(t, g);
    RB.ParentOf(t, q);
    RB.DepthStep(t, q);
    RB.DepthStep(t, y);
    if g.parent != null {
      RB.DepthStep(t, g);
    }
    assert c[q] == RB.Paint(q.color, q.bh) && c[y] == RB.Paint(y.color, y.bh);
    assert q !in Marked(t) && y !in Marked(t);
    CutsAt(t, p);
    CutsAt(t, q);
    CutsAt(t, g);
    RB.RecolorKeeps(Cuts(t), c, p, q, g, y);
  }

  /** The end of `_insert_fixup` on the cut record: the climb stopped at a
      marked node, which turns black if it is red, or below a black parent.
      Either way every auxiliary tree is red-black. */
  lemma SettleCut(t: BinaryTree, p: Node, c': map<Node, RB.Paint>)
    requires t.Valid() && p in t.Repr && Ready(t, p)
    requires p.isRoot || (p.parent != null && p.parent.color != Red)
    requires c' == if p.isRoot && p.color == Red then RB.Paints(t)[p := RB.Paint(Black, p.bh + 1)] else RB.Paints(t)
    ensures RB.Balanced(Cuts(t), c', null) && TopsBlack(Marked(t), c', null)
  {
    var c := RB.Paints(t);
    CutsAt(t, p);
    if p.parent != null {
      RB.IsRoot(t, p);
      assert c[p.parent] == RB.Paint(p.parent.color, p.parent.bh);
    }
    RB.SettleKeeps(Cuts(t), c, p);
  }

  /** `x.rotate()` on a node with a parent, seen from the pointers alone:
      `x` takes its parent's place and the parent hangs below it, adopting
      `x`'s inner child. */
  method Rise(x: Node, t: BinaryTree)
    requires t.Valid() && x in t.Repr && x.parent != null
    modifies t, t.Repr`parent, t.Repr`left, t.Repr`right, t.Repr`tree, t.Repr`isRoot, t.Repr`minDepth, t.Repr`maxDepth
    ensures t.Valid() && t.Repr == old(t.Repr) && InOrder(t.shape) == old(InOrder(t.shape))
    ensures x.parent == old(x.parent.parent) && old(x.parent).parent == x
    ensures old(x.parent.left) == x ==>
      x.right == old(x.parent) && x.left == old(x.left) &&
      old(x.parent).left == old(x.right) && old(x.parent).right == old(x.parent.right)
    ensures old(x.parent.left) != x ==>
      x.left == old(x.parent) && x.right == old(x.right) &&
      old(x.parent).right == old(x.left) && old(x.parent).left == old(x.parent.left)
    ensures old(x.parent.parent) != null && old(x.parent.parent.left) == old(x.parent) ==>
      old(x.parent.parent).left == x && old(x.parent.parent).right == old(x.parent.parent.right)
    ensures old(x.parent.parent) != null && old(x.parent.parent.left) != old(x.parent) ==>
      old(x.parent.parent).right == x && old(x.parent.parent).left == old(x.parent.parent.left)
    ensures Depth(t.shape, x) + 1 == old(Depth(t.shape, x))
    ensures t.root == if old(x.parent.parent) == null then x else old(t.root)
    ensures t.links == Rewire(old(t.links), x) && RB.Paints(t) == old(RB.Paints(t))
    ensures Marked(t) == Swapped(old(Marked(t)), x, old(x.parent))
    ensures Count(Marked(t)) == old(Count(Marked(t)))
  {
    var q := x.parent;
    ghost var s := t.shape;
    NodeFacts(t, x);
    ParentFacts(s, null, x);
    ghost var M := Marked(t);
    RB.Rise(t, x);
    assert Marked(t) == M;
    Exchange(t, s, x, q);
    CountSwapped(M, x, q);
  }

  /** `x.left.rotate()` (or `x.right.rotate()`) with the rotation of a
      Tango node: the child on the side `onLeft` names rises above `x`, `x`
      sinks one level and adopts that child's inner subtree, and its other
      child stays. */
  method RaiseChild(t: BinaryTree, x: Node, onLeft: bool)
    requires t.Valid() && x in t.Repr && (if onLeft then x.left else x.right) != null
    modifies t, t.Repr`parent, t.Repr`left, t.Repr`right, t.Repr`tree, t.Repr`isRoot, t.Repr`minDepth, t.Repr`maxDepth
    ensures t.Valid() && t.Repr == old(t.Repr) && InOrder(t.shape) == old(InOrder(t.shape))
    ensures Depth(t.shape, x) == old(Depth(t.shape, x)) + 1
    ensures onLeft ==> x.left == old(x.left.right) && x.right == old(x.right)
    ensures !onLeft ==> x.right == old(x.right.left) && x.left == old(x.left)
    ensures t.links == Rewire(old(t.links), old(if onLeft then x.left else x.right)) && RB.Paints(t) == old(RB.Paints(t))
    ensures Marked(t) == Swapped(old(Marked(t)), old(if onLeft then x.left else x.right), x)
    ensures t.root == if old(x.parent) == null then old(if onLeft then x.left else x.right) else old(t.root)
    ensures Continuing(if onLeft then x.right else x.left) == old(Continuing(if onLeft then x.right else x.left))
    ensures old(RootMarked(t)) ==> RootMarked(t)
    ensures Count(Marked(t)) == old(Count(Marked(t)))
  {
    var c := if onLeft then x.left else x.right;
    var o := if onLeft then x.right else x.left;
    RB.ChildOf(t, x);
    RB.DepthStep(t, c);
    RB.IsRoot(t, x);
    RB.IsRoot(t, c);
    if o != null {
      RB.DepthStep(t, o);
    }
    ghost var M, r0, oc, top := Marked(t), t.root, Continuing(o), x.parent == null;
    assert o != null ==> o != c && o != x && o in t.Repr && (o.isRoot <==> o in M);
    assert r0 != c && (x.parent != null ==> r0 != x);
    Rise(c, t);
    RB.DepthStep(t, x);
    if o != null {
      SwappedOther(M, c, x, o);
      assert o.isRoot <==> o in Marked(t);
    }
    assert Continuing(o) == oc;
    if r0 != null && !top {
      SwappedOther(M, c, x, r0);
    }
  }

  /** One round of the sinking loops of `_aux_concatenate`: the child `k`
      on the side `onLeft` rotates above `x`, which adopts its inner child.
      No colour changes and the child on the other side stays as it is, mark
      included. When `k` is unmarked the invariant of the loops is kept,
      and unless the loop of `SinkTo` stops at `k` the next carried child
      is a continuing one of black height at least `h`. */
  method SinkCut(t: BinaryTree, x: Node, onLeft: bool, h: int)
    requires t.Valid() && x in t.Repr && (if onLeft then x.left else x.right) != null
    modifies t, t.Repr`parent, t.Repr`left, t.Repr`right, t.Repr`tree, t.Repr`isRoot, t.Repr`minDepth, t.Repr`maxDepth
    ensures t.Valid() && t.Repr == old(t.Repr) && InOrder(t.shape) == old(InOrder(t.shape))
    ensures Depth(t.shape, x) == old(Depth(t.shape, x)) + 1
    ensures onLeft ==> x.left == old(x.left.right) && x.right == old(x.right)
    ensures !onLeft ==> x.right == old(x.right.left) && x.left == old(x.left)
    ensures RB.Paints(t) == old(RB.Paints(t))
    ensures Continuing(if onLeft then x.right else x.left) == old(Continuing(if onLeft then x.right else x.left))
    ensures old(Sinkable(t, x, onLeft) && !(if onLeft then x.left else x.right).isRoot) ==> Sinkable(t, x, onLeft)
    ensures old(var k := if onLeft then x.left else x.right;
                Sinkable(t, x, onLeft) && !k.isRoot && RB.BhOf(RB.Paints(t), k) >= h && !(k.color == Black && k.bh <= h)) ==>
      RB.BhOf(RB.Paints(t), Continuing(if onLeft then x.left else x.right)) >= h
    ensures Count(Marked(t)) == old(Count(Marked(t)))
  {
    var k := if onLeft then x.left else x.right;
    var o := if onLeft then x.right else x.left;
    RB.ChildOf(t, x);
    ghost var m, M, c, r0 := t.links, Marked(t), RB.Paints(t), t.root;
    ghost var good := Sinkable(t, x, onLeft) && !k.isRoot;
    ghost var m', M' := Rewire(m, k), Swapped(M, k, x);
    if good {
      SinkAt(t, x, onLeft, h, m', M');
    }
    RaiseChild(t, x, onLeft);
    if good {
      SinkableFrom(t, x, onLeft, m', M');
    }
  }

  /** `Sinkable` read off the record and the marks, for an unmarked `x`. */
  lemma SinkableFrom(t: BinaryTree, x: Node, onLeft: bool, m: map<Node, Links>, M: set<Node>)
    requires t.Valid() && x in t.Repr && t.links == m && Marked(t) == M && x !in M && RootMarked(t)
    requires RB.Sunk(View(m, M), RB.Paints(t), x, onLeft) && TopsBlack(M, RB.Paints(t), x)
    ensures Sinkable(t, x, onLeft)
    ensures RB.Carried(View(m, M), x, onLeft) == Continuing(if onLeft then x.left else x.right)
  {
    CutsAt(t, x);
  }

  /** `SinkForest` read on the fields of a valid tree, before the rotation
      of `SinkCut`. */
  lemma SinkAt(t: BinaryTree, x: Node, onLeft: bool, h: int, m': map<Node, Links>, M': set<Node>)
    requires t.Valid() && x in t.Repr && (if onLeft then x.left else x.right) != null
    requires Sinkable(t, x, onLeft) && !(if onLeft then x.left else x.right).isRoot
    requires var k := if onLeft then x.left else x.right;
      m' == Rewire(t.links, k) && M' == Swapped(Marked(t), k, x)
    ensures var k := if onLeft then x.left else x.right;
      RB.Sunk(View(m', M'), RB.Paints(t), x, onLeft) && TopsBlack(M', RB.Paints(t), x) && x !in M' &&
      (RB.BhOf(RB.Paints(t), k) >= h && !(k.color == Black && k.bh <= h) ==>
       RB.BhOf(RB.Paints(t), RB.Carried(View(m', M'), x, onLeft)) >= h)
  {
    var k := if onLeft then x.left else x.right;
    RB.ChildOf(t, x);
    RB.DepthStep(t, k);
    FieldsAt(t, x);
    FieldsAt(t, k);
    PivotAt(t, k);
    if x.parent != null {
      RB.DepthStep(t, x);
      RB.ChildOf(t, k);
      if k.left != null {
        RB.DepthStep(t, k.left);
      }
      if k.right != null {
        RB.DepthStep(t, k.right);
      }
    }
    assert RB.Paints(t)[k] == RB.Paint(k.color, k.bh);
    SinkForest(t.links, Marked(t), RB.Paints(t), x, onLeft, h);
  }

  /** `while not is_root_or_None(x.right): x.right.rotate()` (and the
      mirror image): `x` sinks along the inner edge of the subtree on that
      side until no continuing child is left there; the child on the other
      side stays. */
  method SinkAll(t: BinaryTree, x: Node, onLeft: bool)
    requires t.Valid() && x in t.Repr
    modifies t, t.Repr`parent, t.Repr`left, t.Repr`right, t.Repr`tree, t.Repr`isRoot, t.Repr`minDepth, t.Repr`maxDepth
    ensures t.Valid() && t.Repr == old(t.Repr) && InOrder(t.shape) == old(InOrder(t.shape))
    ensures IsRootOrNone(if onLeft then x.left else x.right)
    ensures onLeft ==> x.right == old(x.right)
    ensures !onLeft ==> x.left == old(x.left)
    ensures RB.Paints(t) == old(RB.Paints(t))
    ensures Continuing(if onLeft then x.right else x.left) == old(Continuing(if onLeft then x.right else x.left))
    ensures old(Sinkable(t, x, onLeft)) ==> Sinkable(t, x, onLeft)
    ensures Count(Marked(t)) == old(Count(Marked(t)))
  {
    ghost var good := Sinkable(t, x, onLeft);
    while !IsRootOrNone(if onLeft then x.left else x.right)
      invariant t.Valid() && t.Repr == old(t.Repr) && InOrder(t.shape) == old(InOrder(t.shape))
      invariant x in t.Repr
      invariant onLeft ==> x.right == old(x.right)
      invariant !onLeft ==> x.left == old(x.left)
      invariant RB.Paints(t) == old(RB.Paints(t))
      invariant Continuing(if onLeft then x.right else x.left) == old(Continuing(if onLeft then x.right else x.left))
      invariant good ==> Sinkable(t, x, onLeft)
      invariant Count(Marked(t)) == old(Count(Marked(t)))
      decreases |t.Repr| - Depth(t.shape, x)
    {
      RB.DepthBelowCount(t, x);
      SinkCut(t, x, onLeft, 0);
      RB.DepthBelowCount(t, x);
    }
  }

  /** `while x.left.bh > h or x.left.color == RED: x.left.rotate()` (and
      the mirror image): `x` sinks until the child on that side is black
      with black height at most `h`; the other child stays. Reading a
      missing child raises `AttributeError`. When the loop starts with the
      invariant of `Sinkable` and a continuing child of black height at
      least `h >= 1`, it ends at an unmarked black child of black height
      exactly `h`. Each round of the loop is one `SinkCut` followed by the
      rest of the walk. */
  method SinkTo(t: BinaryTree, x: Node, h: int, onLeft: bool) returns (r: Outcome<()>)
    requires t.Valid() && x in t.Repr
    modifies t, t.Repr`parent, t.Repr`left, t.Repr`right, t.Repr`tree, t.Repr`isRoot, t.Repr`minDepth, t.Repr`maxDepth
    ensures t.Valid() && t.Repr == old(t.Repr) && InOrder(t.shape) == old(InOrder(t.shape))
    ensures r.Raise? ==> r.error == AttributeError
    ensures onLeft ==> x.right == old(x.right)
    ensures !onLeft ==> x.left == old(x.left)
    ensures r.Ok? ==> (var c := if onLeft then x.left else x.right; c != null && c.color == Black && c.bh <= h)
    ensures RB.Paints(t) == old(RB.Paints(t))
    ensures Continuing(if onLeft then x.right else x.left) == old(Continuing(if onLeft then x.right else x.left))
    ensures old(Sinkable(t, x, onLeft) && RB.BhOf(RB.Paints(t), Continuing(if onLeft then x.left else x.right)) >= h >= 1) ==>
      r.Ok? && Sinkable(t, x, onLeft) && (var c := if onLeft then x.left else x.right; !c.isRoot && c.bh == h)
    decreases |t.Repr| - Depth(t.shape, x)
    ensures Count(Marked(t)) == old(Count(Marked(t)))
  {
    var c := if onLeft then x.left else x.right;
    if c == null {
      return Raise(AttributeError);
    }
    RB.ChildOf(t, x);
    assert RB.Paints(t)[c] == RB.Paint(c.color, c.bh);
    if c.bh <= h && c.color != Red {
      return Ok(());
    }
    RB.DepthBelowCount(t, x);
    SinkCut(t, x, onLeft, h);
    r := SinkTo(t, x, h, onLeft);
  }

  /** The first rotating case of `_insert_fixup`: an inner child `p` is
      rotated up and its old parent, now the outer child, takes over; an
      outer child stays. The node handed back is the outer child of a parent
      on the side `onLeft` names, under the same grandparent with the same
      other child, no deeper than `p` was. Both rotated nodes are unmarked
      when a repair is in progress at `p`, so the rotation stays inside one
      auxiliary tree and the repair goes on at the node handed back. */
  method TurnOuter(t: BinaryTree, p: Node, onLeft: bool) returns (x: Node)
    requires t.Valid() && p in t.Repr && p.parent != null && p.parent.parent != null
    requires onLeft <==> p.parent == p.parent.parent.left
    modifies t, t.Repr`parent, t.Repr`left, t.Repr`right, t.Repr`tree, t.Repr`isRoot, t.Repr`minDepth, t.Repr`maxDepth
    ensures t.Valid() && t.Repr == old(t.Repr) && InOrder(t.shape) == old(InOrder(t.shape))
    ensures x in t.Repr && x.parent != null && x.parent.parent != null
    ensures onLeft ==> x == x.parent.left && x.parent == x.parent.parent.left
    ensures !onLeft ==> x == x.parent.right && x.parent == x.parent.parent.right
    ensures x.parent.parent == old(p.parent.parent)
    ensures onLeft ==> x.parent.parent.right == old(p.parent.parent.right)
    ensures !onLeft ==> x.parent.parent.left == old(p.parent.parent.left)
    ensures Depth(t.shape, x) <= old(Depth(t.shape, p)) && RB.Paints(t) == old(RB.Paints(t))
    ensures old(Ready(t, p) && !p.isRoot && p.parent.color == Red) ==>
      Ready(t, x) && !x.isRoot && x.parent.color == Red
    ensures Count(Marked(t)) == old(Count(Marked(t)))
  {
    var q := p.parent;
    RB.ParentOf(t, p);
    RB.ParentOf(t, q);
    RB.ChildOf(t, q);
    if (onLeft && p == q.right) || (!onLeft && p == q.left) {
      ghost var m, M := t.links, Marked(t);
      ghost var good := Ready(t, p) && !p.isRoot && q.color == Red;
      if good {
        TurnCut(t, p);
        PivotAt(t, p);
        ViewRotate(m, M, p);
        SwappedUnmarked(M, p, q);
      }
      Rise(p, t);
      x := q;
      RB.DepthStep(t, x);
    } else {
      x := p;
    }
  }

  /** The second rotating case of `_insert_fixup`, at an outer child `x`:
      the parent `u` turns black with one black level more, the grandparent
      `g` red with one less, and `u` is rotated above `g`, taking over its
      mark and, when `g` was the root, its place; `x` rises one level. */
  method Promote(t: BinaryTree, x: Node, onLeft: bool)
    requires t.Valid() && x in t.Repr && x.parent != null && x.parent.parent != null
    requires onLeft ==> x == x.parent.left && x.parent == x.parent.parent.left
    requires !onLeft ==> x == x.parent.right && x.parent == x.parent.parent.right
    modifies t, t.Repr`parent, t.Repr`left, t.Repr`right, t.Repr`tree, t.Repr`isRoot, t.Repr`minDepth, t.Repr`maxDepth, t.Repr`color, t.Repr`bh
    ensures t.Valid() && t.Repr == old(t.Repr) && InOrder(t.shape) == old(InOrder(t.shape))
    ensures x in t.Repr && Depth(t.shape, x) < old(Depth(t.shape, x))
    ensures old(x.parent) in old(t.Repr) && old(x.parent.parent) in old(t.Repr)
    ensures t.links == Rewire(old(t.links), old(x.parent))
    ensures Marked(t) == Swapped(old(Marked(t)), old(x.parent), old(x.parent.parent))
    ensures RB.Paints(t) == RB.Promoted(old(RB.Paints(t)), old(x.parent), old(x.parent.parent))
    ensures t.root == if old(x.parent.parent.parent) == null then old(x.parent) else old(t.root)
    ensures Count(Marked(t)) == old(Count(Marked(t)))
  {
    var u := x.parent;
    var g := u.parent;
    RB.IsRoot(t, x);
    RB.IsRoot(t, u);
    RB.IsRoot(t, g);
    RB.DepthStep(t, x);
    RB.DepthStep(t, u);
    RB.ChildOf(t, u);
    RB.ChildOf(t, g);
    ghost var outer := u.left == x;
    assert outer == onLeft && outer == (g.left == u);
    ghost var M := MarkedIn(t.Repr);
    RB.PaintPromoted(t, u, g);
    assert MarkedIn(t.Repr) == M;
    Rise(u, t);
    assert if outer then u.left == x else u.right == x;
    RB.ChildOf(t, u);
    RB.DepthStep(t, x);
  }

  /** `Promote` at an outer child `x` whose uncle `y` is not red, seen on
      the auxiliary trees: the parent is unmarked, so the rotation and the
      exchange of marks rotate the forest, and a repair in progress at `x`
      is complete there. */
  method PromoteStep(t: BinaryTree, x: Node, onLeft: bool, ghost y: Node?)
    requires t.Valid() && x in t.Repr && x.parent != null && x.parent.parent != null
    requires onLeft ==> x == x.parent.left && x.parent == x.parent.parent.left && y == x.parent.parent.right
    requires !onLeft ==> x == x.parent.right && x.parent == x.parent.parent.right && y == x.parent.parent.left
    modifies t, t.Repr`parent, t.Repr`left, t.Repr`right, t.Repr`tree, t.Repr`isRoot, t.Repr`minDepth, t.Repr`maxDepth, t.Repr`color, t.Repr`bh
    ensures t.Valid() && t.Repr == old(t.Repr) && InOrder(t.shape) == old(InOrder(t.shape))
    ensures x in t.Repr && Depth(t.shape, x) < old(Depth(t.shape, x))
    ensures old(Ready(t, x) && !x.isRoot && x.parent.color == Red && (y == null || y.color != Red)) ==>
      Ready(t, x)
    ensures Count(Marked(t)) == old(Count(Marked(t)))
  {
    ghost var m, M, c := t.links, Marked(t), RB.Paints(t);
    ghost var u, g := x.parent, x.parent.parent;
    ghost var good := Ready(t, x) && !x.isRoot && u.color == Red && (y == null || y.color != Red);
    if good {
      RB.IsRoot(t, x);
      RB.IsRoot(t, u);
      RB.IsRoot(t, g);
      RB.ChildOf(t, g);
      assert y != null ==> c[y].color == y.color;
      PromoteCut(t, x, y);
      PivotAt(t, u);
    }
    Promote(t, x, onLeft);
    if good {
      PromotedForest(m, M, c, x, u, g);
    }
  }

  /** `Recolor` seen on the auxiliary trees: parent and uncle are red, so
      both are unmarked, and the repair moves on to the grandparent. */
  method RecolorStep(t: BinaryTree, p: Node, y: Node) returns (g: Node)
    requires t.Valid() && p in t.Repr && p.parent != null && p.parent.parent != null
    requires y == p.parent.parent.left || y == p.parent.parent.right
    requires y != p.parent
    modifies t.Repr`color, t.Repr`bh
    ensures t.Valid() && g == old(p.parent.parent) && g in t.Repr
    ensures Depth(t.shape, g) < old(Depth(t.shape, p))
    ensures old(Ready(t, p) && !p.isRoot && p.parent.color == Red && y.color == Red) ==> Ready(t, g)
    ensures Marked(t) == old(Marked(t))
  {
    ghost var M, c := MarkedIn(t.Repr), RB.Paints(t);
    ghost var good := Ready(t, p) && !p.isRoot && p.parent.color == Red && y.color == Red;
    if good {
      RecolorCut(t, p, y);
      TopsRecoloured(M, c, p, p.parent, y, p.parent.parent);
    }
    g := RB.Recolor(t, p, y);
    assert MarkedIn(t.Repr) == M;
  }

  /** One round of the loop of `_insert_fixup` at a node `p` whose parent
      is red: without a grandparent it raises `AttributeError`; with a red
      uncle, the recolouring; otherwise `TurnOuter` and `Promote`. The node
      handed back is higher than `p`, and a repair in progress at an
      unmarked `p` is one at the node handed back. */
  method FixupStep(t: BinaryTree, p: Node) returns (r: Outcome<Node>)
    requires t.Valid() && p in t.Repr && p.parent != null && p.parent.color == Red
    modifies t, t.Repr`parent, t.Repr`left, t.Repr`right, t.Repr`tree, t.Repr`isRoot, t.Repr`minDepth, t.Repr`maxDepth, t.Repr`color, t.Repr`bh
    ensures t.Valid() && t.Repr == old(t.Repr) && InOrder(t.shape) == old(InOrder(t.shape))
    ensures r.Raise? ==> r.error == AttributeError && old(p.parent.parent) == null
    ensures r.Ok? ==> r.value in t.Repr && Depth(t.shape, r.value) < old(Depth(t.shape, p))
    ensures old(Ready(t, p) && !p.isRoot) ==> r.Ok? && Ready(t, r.value)
    ensures Count(Marked(t)) == old(Count(Marked(t)))
  {
    var q := p.parent;
    var g := q.parent;
    RB.IsRoot(t, p);
    RB.IsRoot(t, q);
    if Ready(t, p) && !p.isRoot {
      ReadyParent(t, p);
    }
    if g == null {
      return Raise(AttributeError);
    }
    RB.ChildOf(t, g);
    var onLeft := q == g.left;
    var y := if onLeft then g.right else g.left;
    if y != null && y.color == Red {
      var g' := RecolorStep(t, p, y);
      return Ok(g');
    }
    assert y != null ==> y in t.Repr && RB.Paints(t)[y].color == y.color;
    var x := TurnOuter(t, p, onLeft);
    PromoteStep(t, x, onLeft, y);
    return Ok(x);
  }

  /** `_insert_fixup(p)`: repair while `p` is unmarked and its parent red,
      then make a marked red `p` black with one black level more. It stops
      at a node that roots its auxiliary tree and is black, or whose parent
      is black; only colours, black heights, marks, summaries and rotations
      change, so the in-order sequence is kept. An unmarked node without a
      parent, or a red parent without one, raises `AttributeError`. Started
      from a repair in progress at `p0` (`Ready`), it does not raise and
      every auxiliary tree ends red-black. */
  method InsertFixup(t: BinaryTree, p0: Node) returns (r: Outcome<Node>)
    requires t.Valid() && p0 in t.Repr
    modifies t, t.Repr`parent, t.Repr`left, t.Repr`right, t.Repr`tree, t.Repr`isRoot, t.Repr`minDepth, t.Repr`maxDepth, t.Repr`color, t.Repr`bh
    ensures t.Valid() && t.Repr == old(t.Repr) && InOrder(t.shape) == old(InOrder(t.shape))
    ensures r.Raise? ==> r.error == AttributeError
    ensures r.Ok? ==> r.value in t.Repr
    ensures r.Ok? && r.value.isRoot ==> r.value.color == Black
    ensures r.Ok? && !r.value.isRoot ==> r.value.parent != null && r.value.parent.color == Black
    ensures old(Ready(t, p0)) ==> r.Ok? && AuxRedBlack(t)
    ensures Count(Marked(t)) == old(Count(Marked(t)))
  {
    ghost var ready := Ready(t, p0);
    var p := p0;
    while true
      invariant t.Valid() && t.Repr == old(t.Repr) && InOrder(t.shape) == old(InOrder(t.shape))
      invariant p in t.Repr && (ready ==> Ready(t, p))
      invariant Count(Marked(t)) == old(Count(Marked(t)))
      decreases Depth(t.shape, p)
    {
      if p.isRoot {
        break;
      }
      if ready {
        ReadyParent(t, p);
      }
      if p.parent == null {
        return Raise(AttributeError);
      }
      if p.parent.color != Red {
        break;
      }
      var step := FixupStep(t, p);
      if step.Raise? {
        return Raise(step.error);
      }
      p := step.value;
    }
    SettleMark(t, p);
    return Ok(p);
  }

  /** The end of `_insert_fixup`, once the climb has stopped at a marked
      node or below a black parent: a red marked node turns black with one
      black level more. A repair in progress is then complete: every
      auxiliary tree is red-black. */
  method SettleMark(t: BinaryTree, p: Node)
    requires t.Valid() && p in t.Repr && (p.isRoot || (p.parent != null && p.parent.color != Red))
    modifies p`color, p`bh
    ensures t.Valid()
    ensures p.isRoot ==> p.color == Black
    ensures !p.isRoot ==> p.parent != null && p.parent.color == Black
    ensures old(Ready(t, p)) ==> AuxRedBlack(t)
    ensures Marked(t) == old(Marked(t))
  {
    ghost var v, M, c := Cuts(t), Marked(t), RB.Paints(t);
    ghost var c' := if p.isRoot && p.color == Red then c[p := RB.Paint(Black, p.bh + 1)] else c;
    ghost var good := Ready(t, p);
    if good {
      SettleCut(t, p, c');
    }
    BlackenTop(t, p);
    if good {
      AuxFrom(t, v, M, c');
    }
  }

  /** `AuxRedBlack` read off its parts. */
  lemma AuxFrom(t: BinaryTree, v: map<Node, Links>, M: set<Node>, c: map<Node, RB.Paint>)
    requires Cuts(t) == v && Marked(t) == M && RB.Paints(t) == c && RootMarked(t)
    requires RB.Balanced(v, c, null) && TopsBlack(M, c, null)
    ensures AuxRedBlack(t)
  {
  }

  /** The last step of `_insert_fixup`: a red auxiliary root turns black
      with one more black node below it; the forest and the marks stay. */
  method BlackenTop(t: BinaryTree, p: Node)
    requires t.Valid() && p in t.Repr && (p.isRoot || (p.parent != null && p.parent.color != Red))
    modifies p`color, p`bh
    ensures t.Valid() && Cuts(t) == old(Cuts(t)) && Marked(t) == old(Marked(t))
    ensures RB.Paints(t) == if old(p.isRoot && p.color == Red) then old(RB.Paints(t))[p := RB.Paint(Black, old(p.bh) + 1)] else old(RB.Paints(t))
    ensures p.isRoot ==> p.color == Black
    ensures !p.isRoot ==> p.parent != null && p.parent.color == Black
  {
    RB.ChildOf(t, p);
    RB.IsRoot(t, p);
    ghost var M := MarkedIn(t.Repr);
    if p.isRoot && p.color == Red {
      RB.Repaint(t, p, RB.Paint(Black, p.bh + 1));
    }
    assert MarkedIn(t.Repr) == M;
  }

  /** `RB.Repaint` on a Tango tree: only the paint of `n` changes, so the
      forest and the marks stay. */
  method RepaintCut(t: BinaryTree, n: Node, k: RB.Paint)
    requires t.Valid() && n in t.Repr
    modifies n`color, n`bh
    ensures t.Valid() && n.color == k.color && n.bh == k.bh
    ensures Cuts(t) == old(Cuts(t)) && Marked(t) == old(Marked(t))
    ensures RB.Paints(t) == old(RB.Paints(t))[n := k]
  {
    ghost var M := MarkedIn(t.Repr);
    RB.Repaint(t, n, k);
    assert MarkedIn(t.Repr) == M;
  }

  /** `Ready` read off its parts. */
  lemma ReadyFrom(t: BinaryTree, p: Node, v: map<Node, Links>, M: set<Node>, c: map<Node, RB.Paint>)
    requires Cuts(t) == v && Marked(t) == M && RB.Paints(t) == c && RootMarked(t)
    requires RB.Repair(v, c, p) && TopsBlack(M, c, p)
    ensures Ready(t, p)
  {
  }

  /** `Sinkable` read off its parts. */
  lemma SinkableOf(t: BinaryTree, x: Node, onLeft: bool, v: map<Node, Links>, M: set<Node>, c: map<Node, RB.Paint>)
    requires x in t.Repr && Cuts(t) == v && Marked(t) == M && RB.Paints(t) == c && RootMarked(t)
    requires RB.Sunk(v, c, x, onLeft) && TopsBlack(M, c, x)
    requires var k := if onLeft then x.left else x.right; x.isRoot && k != null ==> k in c && c[k].color == Black
    ensures Sinkable(t, x, onLeft)
  {
  }

  /** Below the marked top `x` of a concatenation, no black height is
      negative and a black node has at least one black level. */
  lemma {:induction false} GroundedCut(t: BinaryTree, x: Node, n: Node)
    requires t.Valid() && Concatenable(t, x) && n in t.Repr && n != x
    ensures n.bh >= (if n.color == Black then 1 else 0)
    decreases Sub(t.shape, n)
  {
    NodeFacts(t, n);
    ChildFacts(t.shape, null, n);
    CutsAt(t, n);
    var c := RB.Paints(t);
    assert RB.Rules(Cuts(t), c, n, null);
    assert c[n] == RB.Paint(n.color, n.bh);
    if Continuing(n.left) != null {
      GroundedCut(t, x, n.left);
      assert c[n.left] == RB.Paint(n.left.color, n.left.bh);
    }
    if Continuing(n.right) != null {
      GroundedCut(t, x, n.right);
      assert c[n.right] == RB.Paint(n.right.color, n.right.bh);
    }
  }

  /** Blackening a child of the marked top `x` of a concatenation, on the
      fields: the rules below `x` and the black marked nodes stay. */
  lemma DarkenAt(t: BinaryTree, x: Node, k: Node, c': map<Node, RB.Paint>)
    requires t.Valid() && Concatenable(t, x) && (k == x.left || k == x.right)
    requires c' == RB.Paints(t)[k := RB.Paint(Black, RB.Blackened(k))]
    ensures RB.Offside(Cuts(t), c', x) && TopsBlack(Marked(t), c', x)
  {
    RB.ChildOf(t, x);
    RB.Parented(t);
    FieldsAt(t, k);
    RB.DepthStep(t, k);
    assert RB.Paints(t)[k] == RB.Paint(k.color, k.bh);
    assert c' == RB.Paints(t)[k := RB.Darkened(RB.Paints(t)[k])];
    DarkenForest(t.links, Marked(t), RB.Paints(t), x, k);
  }

  /** `RB.BlackenChild` on a Tango tree: only the paint of `k` changes, so
      the forest and the marks stay. */
  method BlackenCutChild(t: BinaryTree, x: Node, k: Node)
    requires t.Valid() && x in t.Repr && (k == x.left || k == x.right)
    modifies k`color, k`bh
    ensures t.Valid() && k.color == Black && k.bh == old(RB.Blackened(k))
    ensures Cuts(t) == old(Cuts(t)) && Marked(t) == old(Marked(t))
    ensures RB.Paints(t) == old(RB.Paints(t))[k := RB.Paint(Black, old(RB.Blackened(k)))]
  {
    ghost var M := MarkedIn(t.Repr);
    RB.BlackenChild(t, x, k);
    assert MarkedIn(t.Repr) == M;
  }

  /** `Concatenable` read off its parts. */
  lemma ConcatenableFrom(t: BinaryTree, x: Node, v: map<Node, Links>, M: set<Node>, c: map<Node, RB.Paint>)
    requires x in t.Repr && x.isRoot && Cuts(t) == v && Marked(t) == M && RB.Paints(t) == c && RootMarked(t)
    requires RB.Offside(v, c, x) && TopsBlack(M, c, x)
    ensures Concatenable(t, x)
  {
  }

  /** `if t1 and t1.color == RED: t1.color = BLACK; t1.bh += 1` at a child
      `k` of `x`, seen on the auxiliary trees. */
  method DarkenChild(t: BinaryTree, x: Node, k: Node)
    requires t.Valid() && x in t.Repr && (k == x.left || k == x.right)
    modifies k`color, k`bh
    ensures t.Valid() && k.color == Black && k.bh == old(RB.Blackened(k))
    ensures old(Concatenable(t, x)) ==> Concatenable(t, x)
  {
    ghost var v, M, c := Cuts(t), Marked(t), RB.Paints(t);
    ghost var c' := c[k := RB.Paint(Black, RB.Blackened(k))];
    ghost var good := Concatenable(t, x);
    if good {
      DarkenAt(t, x, k, c');
    }
    BlackenCutChild(t, x, k);
    if good {
      ConcatenableFrom(t, x, v, M, c');
    }
  }

  /** The first step of `_aux_concatenate`: both subtree roots of `p` turn
      black, gaining a black level when they were red, marked or not. The
      state a concatenation expects is kept. */
  method BlackenCut(t: BinaryTree, p: Node)
    requires t.Valid() && p in t.Repr
    modifies t.Repr`color, t.Repr`bh
    ensures t.Valid()
    ensures p.left != null ==> p.left.color == Black && p.left.bh == old(RB.Blackened(p.left))
    ensures p.right != null ==> p.right.color == Black && p.right.bh == old(RB.Blackened(p.right))
    ensures p.color == old(p.color) && p.bh == old(p.bh)
    ensures old(Concatenable(t, p)) ==> Concatenable(t, p)
    ensures Marked(t) == old(Marked(t))
  {
    RB.ChildOf(t, p);
    var t1 := p.left;
    if t1 != null {
      RB.DepthStep(t, t1);
      DarkenChild(t, p, t1);
    }
    var t2 := p.right;
    if t2 != null {
      RB.DepthStep(t, t2);
      DarkenChild(t, p, t2);
    }
  }

  /** A concatenation about to sink `x` along the side `onLeft`, its
      carried child black: the invariant of the sinking loops holds,
      whatever `x` is painted. */
  lemma SinkStart(t: BinaryTree, x: Node, onLeft: bool, k: RB.Paint, c': map<Node, RB.Paint>)
    requires t.Valid() && Concatenable(t, x)
    requires var n := if onLeft then x.left else x.right; n != null ==> n.color == Black
    requires c' == RB.Paints(t)[x := k]
    ensures Sinkable(t, x, onLeft)
    ensures RB.Sunk(Cuts(t), c', x, onLeft) && TopsBlack(Marked(t), c', x)
    ensures var n := if onLeft then x.left else x.right; n != null ==> n in c' && c'[n].color == Black
  {
    CutsAt(t, x);
    RB.ChildOf(t, x);
    var n := if onLeft then x.left else x.right;
    if n != null {
      RB.DepthStep(t, n);
      assert RB.Paints(t)[n] == RB.Paint(n.color, n.bh);
    }
    RB.OffsideSunk(Cuts(t), RB.Paints(t), x, onLeft, k);
  }

  /** Where the loop of `SinkAll` leaves `x`: no continuing child on either
      side, so painting it red of black height 0 leaves the state an
      insertion repair starts from. */
  lemma LeanReady(t: BinaryTree, x: Node, onLeft: bool, c': map<Node, RB.Paint>)
    requires t.Valid() && Sinkable(t, x, onLeft) && IsRootOrNone(x.left) && IsRootOrNone(x.right)
    requires c' == RB.Paints(t)[x := RB.Paint(Red, 0)]
    ensures RB.Repair(Cuts(t), c', x) && TopsBlack(Marked(t), c', x)
  {
    CutsAt(t, x);
    RB.SunkRepair(Cuts(t), RB.Paints(t), x, onLeft, RB.Paint(Red, 0));
  }

  /** Where the loop of `SinkTo` leaves a red `x` of black height `h`: a
      black unmarked child of black height `h` on the side it sank along and
      a continuing child of the same black height on the other. The
      insertion repair can start there. */
  lemma DescentReady(t: BinaryTree, x: Node, onLeft: bool, h: int)
    requires t.Valid() && Sinkable(t, x, onLeft) && x.color == Red && x.bh == h
    requires var n := if onLeft then x.left else x.right; n != null && !n.isRoot && n.color == Black && n.bh == h
    requires var o := Continuing(if onLeft then x.right else x.left);
      RB.BhOf(RB.Paints(t), o) == h && !RB.IsRed(RB.Paints(t), o)
    ensures Ready(t, x)
  {
    CutsAt(t, x);
    RB.ChildOf(t, x);
    var n := if onLeft then x.left else x.right;
    assert RB.Paints(t)[n] == RB.Paint(n.color, n.bh);
    assert RB.Paints(t)[x] == RB.Paint(Red, h);
    RB.SunkRepair(Cuts(t), RB.Paints(t), x, onLeft, RB.Paint(Red, h));
  }

  /** The two black cases of `_aux_concatenate`: the marked top `x` turns
      black of black height `h`. Over continuing subtrees of black height
      `h - 1` that keep the rules, every auxiliary tree is then red-black. */
  method Crown(t: BinaryTree, x: Node, h: int)
    requires t.Valid() && x in t.Repr
    modifies x`color, x`bh
    ensures t.Valid() && x.color == Black && x.bh == h
    ensures old(Concatenable(t, x)) && h == 1 + old(RB.BhOf(RB.Paints(t), Continuing(x.left))) &&
            h == 1 + old(RB.BhOf(RB.Paints(t), Continuing(x.right))) ==>
      AuxRedBlack(t)
    ensures Marked(t) == old(Marked(t))
  {
    ghost var v, M, c := Cuts(t), Marked(t), RB.Paints(t);
    ghost var c' := c[x := RB.Paint(Black, h)];
    ghost var good := Concatenable(t, x) && h == 1 + RB.BhOf(c, Continuing(x.left)) && h == 1 + RB.BhOf(c, Continuing(x.right));
    if good {
      CrownCut(t, x, h, c');
    }
    RepaintCut(t, x, RB.Paint(Black, h));
    if good {
      AuxFrom(t, v, M, c');
    }
  }

  /** `Crown` on the forest: `EvenKeeps` at the marked top. */
  lemma CrownCut(t: BinaryTree, x: Node, h: int, c': map<Node, RB.Paint>)
    requires t.Valid() && Concatenable(t, x)
    requires h == 1 + RB.BhOf(RB.Paints(t), Continuing(x.left)) && h == 1 + RB.BhOf(RB.Paints(t), Continuing(x.right))
    requires c' == RB.Paints(t)[x := RB.Paint(Black, h)]
    ensures RB.Balanced(Cuts(t), c', null) && TopsBlack(Marked(t), c', null) && RootMarked(t)
  {
    CutsAt(t, x);
    RB.EvenKeeps(Cuts(t), RB.Paints(t), x, h);
  }

  /** The cases of `_aux_concatenate` with one continuing subtree: `x`
      sinks until it has no continuing child (`SinkAll`) and turns red of
      black height 0. From a concatenation whose carried child is black,
      this is the state an insertion repair starts from. */
  method Lean(t: BinaryTree, x: Node, onLeft: bool)
    requires t.Valid() && x in t.Repr && IsRootOrNone(if onLeft then x.right else x.left)
    modifies t, t.Repr`parent, t.Repr`left, t.Repr`right, t.Repr`tree, t.Repr`isRoot, t.Repr`minDepth, t.Repr`maxDepth, x`color, x`bh
    ensures t.Valid() && t.Repr == old(t.Repr) && InOrder(t.shape) == old(InOrder(t.shape))
    ensures x.color == Red && x.bh == 0 && IsRootOrNone(x.left) && IsRootOrNone(x.right)
    ensures old(Concatenable(t, x) && (var n := if onLeft then x.left else x.right; n != null ==> n.color == Black)) ==>
      Ready(t, x)
    ensures Count(Marked(t)) == old(Count(Marked(t)))
  {
    ghost var good := Concatenable(t, x) && (var n := if onLeft then x.left else x.right; n != null ==> n.color == Black);
    if good {
      SinkStart(t, x, onLeft, RB.Paint(Red, 0), RB.Paints(t)[x := RB.Paint(Red, 0)]);
    }
    SinkAll(t, x, onLeft);
    ghost var v, M, c := Cuts(t), Marked(t), RB.Paints(t);
    ghost var c' := c[x := RB.Paint(Red, 0)];
    if good {
      LeanReady(t, x, onLeft, c');
    }
    RepaintCut(t, x, RB.Paint(Red, 0));
    if good {
      ReadyFrom(t, x, v, M, c');
    }
  }

  /** The cases of `_aux_concatenate` with subtrees of different black
      heights: `x` turns red of black height `h` and sinks along the inner
      edge of the higher subtree on the side `onLeft` (`SinkTo`). From a
      concatenation whose carried child is black of black height at least
      `h >= 1` and whose other child is a black continuing one of black
      height `h`, the walk does not raise and ends in the state an insertion
      repair starts from. */
  method Descent(t: BinaryTree, x: Node, h: int, onLeft: bool) returns (r: Outcome<()>)
    requires t.Valid() && x in t.Repr
    modifies t, t.Repr`parent, t.Repr`left, t.Repr`right, t.Repr`tree, t.Repr`isRoot, t.Repr`minDepth, t.Repr`maxDepth, x`color, x`bh
    ensures t.Valid() && t.Repr == old(t.Repr) && InOrder(t.shape) == old(InOrder(t.shape))
    ensures x.color == Red && x.bh == h
    ensures r.Raise? ==> r.error == AttributeError
    ensures old(DescentFits(t, x, h, onLeft)) ==> r.Ok? && Ready(t, x)
    ensures Count(Marked(t)) == old(Count(Marked(t)))
  {
    ghost var M := Marked(t);
    Redden(t, x, h, onLeft);
    assert Marked(t) == M;
    ghost var good := Sinkable(t, x, onLeft) &&
      RB.BhOf(RB.Paints(t), Continuing(if onLeft then x.left else x.right)) >= h >= 1 &&
      (var o := Continuing(if onLeft then x.right else x.left); RB.BhOf(RB.Paints(t), o) == h && !RB.IsRed(RB.Paints(t), o));
    r := SinkTo(t, x, h, onLeft);
    if good {
      DescentReady(t, x, onLeft, h);
    }
  }

  /** The state in which `Descent` ends ready for the insertion repair: a
      concatenation at the marked top `x` whose carried child is black of
      black height at least `h >= 1` and whose other child is a black
      continuing one of black height `h`. */
  ghost predicate DescentFits(t: BinaryTree, x: Node, h: int, onLeft: bool)
    reads t, x, x.left, x.right, t.Repr`isRoot, t.Repr`color, t.Repr`bh
  {
    Concatenable(t, x) &&
    (var n := if onLeft then x.left else x.right; n != null && n.color == Black && RB.BhOf(RB.Paints(t), Continuing(n)) >= h >= 1) &&
    (var o := Continuing(if onLeft then x.right else x.left); RB.BhOf(RB.Paints(t), o) == h && !RB.IsRed(RB.Paints(t), o))
  }

  /** `x.color = RED; x.bh = h` before the walk of `Descent`: from a state
      `DescentFits`, `SinkTo` may start and the other child keeps its
      black height. */
  method Redden(t: BinaryTree, x: Node, h: int, onLeft: bool)
    requires t.Valid() && x in t.Repr
    modifies x`color, x`bh
    ensures t.Valid() && x.color == Red && x.bh == h
    ensures old(DescentFits(t, x, h, onLeft)) ==>
      Sinkable(t, x, onLeft) &&
      RB.BhOf(RB.Paints(t), Continuing(if onLeft then x.left else x.right)) >= h >= 1 &&
      (var o := Continuing(if onLeft then x.right else x.left); RB.BhOf(RB.Paints(t), o) == h && !RB.IsRed(RB.Paints(t), o))
  {
    ghost var v, M, c := Cuts(t), Marked(t), RB.Paints(t);
    ghost var c' := c[x := RB.Paint(Red, h)];
    ghost var good := DescentFits(t, x, h, onLeft);
    if good {
      SinkStart(t, x, onLeft, RB.Paint(Red, h), c');
      DescentStart(t, x, onLeft, c');
    }
    RepaintCut(t, x, RB.Paint(Red, h));
    if good {
      SinkableOf(t, x, onLeft, v, M, c');
    }
  }

  /** Painting the marked top `x` leaves the black heights of its
      continuing children as they were. */
  lemma DescentStart(t: BinaryTree, x: Node, onLeft: bool, c': map<Node, RB.Paint>)
    requires t.Valid() && x in t.Repr && x.isRoot && c'.Keys == RB.Paints(t).Keys
    requires forall n :: n in c' && n != x ==> c'[n] == RB.Paints(t)[n]
    ensures var n := Continuing(if onLeft then x.left else x.right);
      RB.BhOf(c', n) == RB.BhOf(RB.Paints(t), n) && RB.IsRed(c', n) == RB.IsRed(RB.Paints(t), n)
    ensures var o := Continuing(if onLeft then x.right else x.left);
      RB.BhOf(c', o) == RB.BhOf(RB.Paints(t), o) && RB.IsRed(c', o) == RB.IsRed(RB.Paints(t), o)
  {
    RB.ChildOf(t, x);
  }

  /** The state `_aux_concatenate` leaves after blackening the subtree
      roots of the marked top `p`. */
  ghost predicate SettleFits(t: BinaryTree, p: Node)
    reads t, p, p.left, p.right, t.Repr`isRoot, t.Repr`color, t.Repr`bh
  {
    Concatenable(t, p) && (p.left != null ==> p.left.color == Black) && (p.right != null ==> p.right.color == Black)
  }

  /** What `_aux_concatenate` hands to its last step: a red top ready for
      the insertion repair, or a black one over red-black auxiliary trees. */
  ghost predicate Settled(t: BinaryTree, p: Node)
    reads t, p, t.Repr`isRoot, t.Repr`color, t.Repr`bh
  {
    (p.color == Red ==> Ready(t, p)) && (p.color != Red ==> AuxRedBlack(t))
  }

  /** Two continuing subtrees of equal black height: the black height the
      top takes is one above both. */
  lemma CrownEven(t: BinaryTree, p: Node)
    requires t.Valid() && p in t.Repr && !IsRootOrNone(p.left) && !IsRootOrNone(p.right)
    requires p.left.bh == p.right.bh
    ensures p.left.bh == RB.BhOf(RB.Paints(t), Continuing(p.left)) == RB.BhOf(RB.Paints(t), Continuing(p.right))
  {
    RB.ChildOf(t, p);
    assert RB.Paints(t)[p.left] == RB.Paint(p.left.color, p.left.bh);
    assert RB.Paints(t)[p.right] == RB.Paint(p.right.color, p.right.bh);
  }

  /** Two black continuing subtrees of different black heights, the higher
      one on the side `onLeft`: `Descent` fits, down to the lower one's
      black height, which is at least 1. */
  lemma DescentOf(t: BinaryTree, p: Node, onLeft: bool)
    requires t.Valid() && SettleFits(t, p) && !IsRootOrNone(p.left) && !IsRootOrNone(p.right)
    requires onLeft ==> p.left.bh > p.right.bh
    requires !onLeft ==> p.right.bh > p.left.bh
    ensures DescentFits(t, p, if onLeft then p.right.bh else p.left.bh, onLeft)
  {
    RB.ChildOf(t, p);
    var hi, lo := if onLeft then p.left else p.right, if onLeft then p.right else p.left;
    GroundedCut(t, p, lo);
    assert RB.Paints(t)[hi] == RB.Paint(hi.color, hi.bh);
    assert RB.Paints(t)[lo] == RB.Paint(lo.color, lo.bh);
  }

  // ---------------------------------------------------------------------
  // The stop test of _aux_split

  /** The stop test of `_aux_split` as written, `root_key and
      p.parent.key == root_key`: Python's truth test also reads a root key
      of 0 as no root key at all. */
  predicate StopsAtAsWritten(rootKey: RB.Option<int>, parentKey: int)
  {
    rootKey.Some? && rootKey.value != 0 && parentKey == rootKey.value
  }

  /** The stop test as intended (the early return of `_aux_split` tests
      `root_key is not None`): the parent holds the root key. */
  predicate StopsAt(rootKey: RB.Option<int>, parentKey: int)
  {
    rootKey.Some? && parentKey == rootKey.value
  }

  /** The stop test as written or as intended. */
  predicate Stops(asWritten: bool, rootKey: RB.Option<int>, parentKey: int)
  {
    if asWritten then StopsAtAsWritten(rootKey, parentKey) else StopsAt(rootKey, parentKey)
  }

  /** The two tests differ exactly on a root key of 0, where the test as
      written lets the split rotate past the node holding it. */
  lemma StopTests(rootKey: RB.Option<int>, parentKey: int)
    ensures StopsAtAsWritten(rootKey, parentKey) ==> StopsAt(rootKey, parentKey)
    ensures StopsAt(rootKey, parentKey) && !StopsAtAsWritten(rootKey, parentKey) <==>
      rootKey == RB.Some(0) && parentKey == 0
  {
  }

  /** No node is its own child. */
  lemma NotOwnChild(t: BinaryTree, x: Node)
    requires t.Valid() && x in t.Repr
    ensures x.left != x && x.right != x
  {
    Unfold(t, x);
  }

  // ---------------------------------------------------------------------
  // TangoTree

  /** A Tango tree: the search tree it is, and whether construction is over
      (after which `insert` refuses). */
  class TangoTree {
    const tree: BinaryTree
    var constructed: bool

    /** An empty tree, still under construction. */
    constructor ()
      ensures fresh(tree) && tree.Valid() && tree.root == null && tree.Repr == {} && !constructed
    {
      tree := new BinaryTree();
      constructed := false;
    }

    /** `_aux_search`: the ordinary search for `key` from `root`, stopping
        where the next node would be marked or missing. The node reached is
        in the auxiliary part below `root`; it holds `key` unless no node of
        that part does, and then the search stopped at the side `key` lies on. */
    method AuxSearch(key: int, root: Node) returns (p: Node)
      requires tree.Valid() && root in tree.Repr
      ensures p in AuxPart(Sub(tree.shape, root), Marked(tree)) && p in tree.Repr
      ensures p.key != key ==> forall n :: n in AuxPart(Sub(tree.shape, root), Marked(tree)) ==> n.key != key
      ensures p.key < key ==> IsRootOrNone(p.right)
      ensures key < p.key ==> IsRootOrNone(p.left)
    {
      ghost var s, M := tree.shape, Marked(tree);
      ghost var A := AuxPart(Sub(s, root), M);
      ClimbStart(tree, root);
      p := root;
      while p.key != key
        invariant p in A && p in tree.Repr
        invariant forall n :: n in A && n.key == key ==> n in AuxPart(Sub(s, p), M)
        decreases Size(Sub(s, p))
      {
        SearchStep(tree, root, p, key);
        if p.key < key {
          if !IsRootOrNone(p.right) {
            p := p.right;
          } else {
            return p;
          }
        } else if p.key > key {
          if !IsRootOrNone(p.left) {
            p := p.left;
          } else {
            return p;
          }
        }
      }
    }

    /** `_aux_go_to_root`: `None` for `None`; otherwise up the parents to
        the first marked node, which is the auxiliary root of `p`. When that
        root is the unmarked structural root the walk runs off the top and
        raises `AttributeError`. */
    method GoToRoot(p: Node?) returns (r: Outcome<Node?>)
      requires tree.Valid() && (p != null ==> p in tree.Repr)
      ensures p == null ==> r == Ok(null)
      ensures p != null ==> (r.Raise? <==> AuxRoot(tree.shape, p, Marked(tree)) !in Marked(tree))
      ensures r.Raise? ==> r.error == AttributeError
      ensures p != null && r.Ok? ==>
        r.value == AuxRoot(tree.shape, p, Marked(tree)) && r.value != null && r.value in tree.Repr && r.value.isRoot
    {
      if p == null {
        return Ok(null);
      }
      ghost var s, M := tree.shape, Marked(tree);
      var w := p;
      while !w.isRoot
        invariant w in tree.Repr && AuxRoot(s, w, M) == AuxRoot(s, p, M)
        decreases Depth(s, w)
      {
        if w.parent == null {
          ClimbOffTop(tree, w);
          return Raise(AttributeError);
        }
        Climb(tree, w);
        w := w.parent;
      }
      AuxRootFacts(s, w, M);
      return Ok(w);
    }

    /** The climb of `_find_predecessor` from a node without a continuing
        left child: up while arriving from left children; arriving from a
        right child, that parent is the predecessor; at a marked node there
        is none, and the search for `p0.key` from it returns `p0`. */
    method PredecessorAbove(p0: Node) returns (r: Outcome<(Node, bool)>)
      requires tree.Valid() && p0 in tree.Repr && IsRootOrNone(p0.left)
      ensures r.Raise? ==> r.error == AttributeError && AuxRoot(tree.shape, p0, Marked(tree)) !in Marked(tree)
      ensures r.Ok? && r.value.1 ==> PredecessorIn(Aux(tree, p0), p0, r.value.0)
      ensures r.Ok? && !r.value.1 ==> r.value.0 == p0 && forall n :: n in Aux(tree, p0) ==> p0.key <= n.key
      ensures r.Ok? ==> r.value.0 in tree.Repr
    {
      ghost var s, M := tree.shape, Marked(tree);
      ClimbStart(tree, p0);
      var key := p0.key;
      var w := p0;
      while true
        invariant w in tree.Repr && AuxRoot(s, w, M) == AuxRoot(s, p0, M)
        invariant p0 in AuxPart(Sub(s, w), M) && LeftOnly(s, w, p0)
        decreases Depth(s, w)
      {
        if w.isRoot {
          var q := AuxSearch(key, w);
          ClimbAtRoot(tree, p0, w, q, true);
          return Ok((q, false));
        }
        if w.parent == null {
          ClimbOffTop(tree, w);
          return Raise(AttributeError);
        }
        if w == w.parent.right {
          ParentPrecedes(tree, p0, w);
          return Ok((w.parent, true));
        }
        Climb(tree, w);
        ClimbOn(tree, p0, w, true);
        w := w.parent;
      }
    }

    /** The mirror of `PredecessorAbove` for `_find_successor`. */
    method SuccessorAbove(p0: Node) returns (r: Outcome<(Node, bool)>)
      requires tree.Valid() && p0 in tree.Repr && IsRootOrNone(p0.right)
      ensures r.Raise? ==> r.error == AttributeError && AuxRoot(tree.shape, p0, Marked(tree)) !in Marked(tree)
      ensures r.Ok? && r.value.1 ==> SuccessorIn(Aux(tree, p0), p0, r.value.0)
      ensures r.Ok? && !r.value.1 ==> r.value.0 == p0 && forall n :: n in Aux(tree, p0) ==> n.key <= p0.key
      ensures r.Ok? ==> r.value.0 in tree.Repr
    {
      ghost var s, M := tree.shape, Marked(tree);
      ClimbStart(tree, p0);
      var key := p0.key;
      var w := p0;
      while true
        invariant w in tree.Repr && AuxRoot(s, w, M) == AuxRoot(s, p0, M)
        invariant p0 in AuxPart(Sub(s, w), M) && RightOnly(s, w, p0)
        decreases Depth(s, w)
      {
        if w.isRoot {
          var q := AuxSearch(key, w);
          ClimbAtRoot(tree, p0, w, q, false);
          return Ok((q, false));
        }
        if w.parent == null {
          ClimbOffTop(tree, w);
          return Raise(AttributeError);
        }
        if w == w.parent.left {
          ParentSucceeds(tree, p0, w);
          return Ok((w.parent, true));
        }
        Climb(tree, w);
        ClimbOn(tree, p0, w, false);
        w := w.parent;
      }
    }

    /** `_find_predecessor`: `(q, True)` with `q` the in-order predecessor of
        `p` within its auxiliary tree, or `(p, False)` when `p` holds the
        least key there. Below a continuing left child the predecessor is the
        far right end of that child's part; otherwise `PredecessorAbove`. */
    method FindPredecessor(p: Node) returns (r: Outcome<(Node, bool)>)
      requires tree.Valid() && p in tree.Repr
      ensures r.Raise? ==> r.error == AttributeError && AuxRoot(tree.shape, p, Marked(tree)) !in Marked(tree)
      ensures r.Ok? && r.value.1 ==> PredecessorIn(Aux(tree, p), p, r.value.0)
      ensures r.Ok? && !r.value.1 ==> r.value.0 == p && forall n :: n in Aux(tree, p) ==> p.key <= n.key
      ensures r.Ok? ==> r.value.0 in tree.Repr
    {
      if !IsRootOrNone(p.left) {
        ghost var s, M := tree.shape, Marked(tree);
        var c := p.left;
        Unfold(tree, p);
        ClimbStart(tree, c);
        var q := c;
        while !IsRootOrNone(q.right)
          invariant q in AuxPart(Sub(s, c), M) && q in tree.Repr
          invariant forall n :: n in AuxPart(Sub(s, c), M) && Beyond(q, n, true) ==> n in AuxPart(Sub(s, q), M)
          decreases Size(Sub(s, q))
        {
          EndStep(tree, c, q, true);
          q := q.right;
        }
        EndStep(tree, c, q, true);
        PredecessorBelow(tree, p, q);
        return Ok((q, true));
      }
      r := PredecessorAbove(p);
    }

    /** `_find_successor`, the mirror of `FindPredecessor`. */
    method FindSuccessor(p: Node) returns (r: Outcome<(Node, bool)>)
      requires tree.Valid() && p in tree.Repr
      ensures r.Raise? ==> r.error == AttributeError && AuxRoot(tree.shape, p, Marked(tree)) !in Marked(tree)
      ensures r.Ok? && r.value.1 ==> SuccessorIn(Aux(tree, p), p, r.value.0)
      ensures r.Ok? && !r.value.1 ==> r.value.0 == p && forall n :: n in Aux(tree, p) ==> n.key <= p.key
      ensures r.Ok? ==> r.value.0 in tree.Repr
    {
      if !IsRootOrNone(p.right) {
        ghost var s, M := tree.shape, Marked(tree);
        var c := p.right;
        Unfold(tree, p);
        ClimbStart(tree, c);
        var q := c;
        while !IsRootOrNone(q.left)
          invariant q in AuxPart(Sub(s, c), M) && q in tree.Repr
          invariant forall n :: n in AuxPart(Sub(s, c), M) && Beyond(q, n, false) ==> n in AuxPart(Sub(s, q), M)
          decreases Size(Sub(s, q))
        {
          EndStep(tree, c, q, false);
          q := q.left;
        }
        EndStep(tree, c, q, false);
        SuccessorBelow(tree, p, q);
        return Ok((q, true));
      }
      r := SuccessorAbove(p);
    }

    /** `_aux_concatenate(p)`, with the subtrees of `p` two red-black trees
        up to the next marks: both subtree roots are blackened (a mark does
        not stop this); with no continuing subtree `p` becomes black of
        black height 1; with one, `p` sinks to its bottom and turns red;
        with two of equal black height, `p` becomes black one black level
        above them; otherwise a red `p` sinks along the inner edge of the
        higher one to a black node of the lower one's black height. A red
        `p` is repaired by `InsertFixup`, and the walk up stops below the
        node that was the parent of `p` (at the structural root when there
        was none), which is found again by its key. Only the in-order
        sequence is promised to be kept; every failure is an
        `AttributeError`. */
    method Concatenate(p: Node) returns (r: Outcome<Node>)
      requires tree.Valid() && p in tree.Repr
      modifies tree, tree.Repr`parent, tree.Repr`left, tree.Repr`right, tree.Repr`tree, tree.Repr`isRoot, tree.Repr`minDepth, tree.Repr`maxDepth, tree.Repr`color, tree.Repr`bh
      ensures tree.Valid() && tree.Repr == old(tree.Repr) && InOrder(tree.shape) == old(InOrder(tree.shape))
      ensures r.Raise? ==> r.error == AttributeError
      ensures r.Ok? ==> r.value in tree.Repr && r.value.parent == old(p.parent)
      ensures old(IsRootOrNone(p.left) && IsRootOrNone(p.right)) ==>
        r == Ok(p) && tree.shape == old(tree.shape) && p.color == Black && p.bh == 1
      ensures old(!IsRootOrNone(p.left) && !IsRootOrNone(p.right)) && old(RB.Blackened(p.left)) == old(RB.Blackened(p.right)) ==>
        r == Ok(p) && tree.shape == old(tree.shape) && p.color == Black && p.bh == old(RB.Blackened(p.left)) + 1
      ensures old(Concatenable(tree, p)) ==> AuxRedBlack(tree) && (old(p.parent) == null ==> r.Ok?)
      ensures Count(Marked(tree)) == old(Count(Marked(tree)))
    {
      ghost var pp := p.parent;
      RB.IsRoot(tree, p);
      RB.ChildOf(tree, p);
      BlackenCut(tree, p);
      r := Merge(p);
    }

    /** `_aux_concatenate` after the subtree roots are blackened: the key of
        the parent is saved, `Settle` picks the case and `Reattach` repairs
        and climbs back below that parent. */
    method Merge(p: Node) returns (r: Outcome<Node>)
      requires tree.Valid() && p in tree.Repr
      modifies tree, tree.Repr`parent, tree.Repr`left, tree.Repr`right, tree.Repr`tree, tree.Repr`isRoot, tree.Repr`minDepth, tree.Repr`maxDepth, tree.Repr`color, tree.Repr`bh
      ensures tree.Valid() && tree.Repr == old(tree.Repr) && InOrder(tree.shape) == old(InOrder(tree.shape))
      ensures r.Raise? ==> r.error == AttributeError
      ensures r.Ok? ==> r.value in tree.Repr && r.value.parent == old(p.parent)
      ensures old(IsRootOrNone(p.left) && IsRootOrNone(p.right)) ==>
        r == Ok(p) && tree.shape == old(tree.shape) && p.color == Black && p.bh == 1
      ensures old(!IsRootOrNone(p.left) && !IsRootOrNone(p.right)) && old(p.left.bh == p.right.bh) ==>
        r == Ok(p) && tree.shape == old(tree.shape) && p.color == Black && p.bh == old(p.left.bh) + 1
      ensures old(SettleFits(tree, p)) ==> AuxRedBlack(tree) && (old(p.parent) == null ==> r.Ok?)
      ensures Count(Marked(tree)) == old(Count(Marked(tree)))
    {
      ghost var pp := p.parent;
      RB.IsRoot(tree, p);
      RB.ChildOf(tree, p);
      var parentKey: RB.Option<int> := if p.parent != null then RB.Some(p.parent.key) else RB.None;
      var settled := Settle(p);
      if settled.Raise? {
        return Raise(settled.error);
      }
      r := Reattach(p, parentKey, pp);
    }

    /** The four cases of `_aux_concatenate` once the subtree roots are
        black: the colour and black height `p` gets, and the rotations that
        sink it. Without rotations the shape and the parent of `p` stay. */
    method Settle(p: Node) returns (r: Outcome<()>)
      requires tree.Valid() && p in tree.Repr
      modifies tree, tree.Repr`parent, tree.Repr`left, tree.Repr`right, tree.Repr`tree, tree.Repr`isRoot, tree.Repr`minDepth, tree.Repr`maxDepth, tree.Repr`color, tree.Repr`bh
      ensures tree.Valid() && tree.Repr == old(tree.Repr) && InOrder(tree.shape) == old(InOrder(tree.shape))
      ensures r.Raise? ==> r.error == AttributeError
      ensures old(IsRootOrNone(p.left) && IsRootOrNone(p.right)) ==>
        r.Ok? && tree.shape == old(tree.shape) && p.parent == old(p.parent) && p.color == Black && p.bh == 1
      ensures old(!IsRootOrNone(p.left) && !IsRootOrNone(p.right)) && old(p.left.bh == p.right.bh) ==>
        r.Ok? && tree.shape == old(tree.shape) && p.parent == old(p.parent) && p.color == Black && p.bh == old(p.left.bh) + 1
      ensures old(SettleFits(tree, p)) ==> r.Ok? && Settled(tree, p)
      ensures Count(Marked(tree)) == old(Count(Marked(tree)))
    {
      var t1 := p.left;
      var t2 := p.right;
      ghost var good := SettleFits(tree, p);
      RB.ChildOf(tree, p);
      if IsRootOrNone(t1) && IsRootOrNone(t2) {
        Crown(tree, p, 1);
      } else if IsRootOrNone(t1) {
        Lean(tree, p, false);
      } else if IsRootOrNone(t2) {
        Lean(tree, p, true);
      } else if t1.bh == t2.bh {
        if good {
          CrownEven(tree, p);
        }
        Crown(tree, p, t1.bh + 1);
      } else if t1.bh > t2.bh {
        if good {
          DescentOf(tree, p, true);
        }
        r := Descent(tree, p, t2.bh, true);
        return;
      } else {
        if good {
          DescentOf(tree, p, false);
        }
        r := Descent(tree, p, t1.bh, false);
        return;
      }
      return Ok(());
    }

    /** The end of `_aux_concatenate`: a red `p` is repaired by
        `InsertFixup`, then `ClimbBelow` finds the node below `pp` again. A
        black `p` still below `pp` is the answer itself. */
    method Reattach(p: Node, parentKey: RB.Option<int>, ghost pp: Node?) returns (r: Outcome<Node>)
      requires tree.Valid() && p in tree.Repr
      requires parentKey.None? <==> pp == null
      requires pp != null ==> pp in tree.Repr && pp.key == parentKey.value
      modifies tree, tree.Repr`parent, tree.Repr`left, tree.Repr`right, tree.Repr`tree, tree.Repr`isRoot, tree.Repr`minDepth, tree.Repr`maxDepth, tree.Repr`color, tree.Repr`bh
      ensures tree.Valid() && tree.Repr == old(tree.Repr) && InOrder(tree.shape) == old(InOrder(tree.shape))
      ensures r.Raise? ==> r.error == AttributeError
      ensures r.Ok? ==> r.value in tree.Repr && r.value.parent == pp
      ensures old(p.color) != Red && old(p.parent) == pp ==> r == Ok(p) && unchanged(tree) && unchanged(tree.Repr)
      ensures old(Settled(tree, p)) ==> AuxRedBlack(tree) && (parentKey.None? ==> r.Ok?)
      ensures Count(Marked(tree)) == old(Count(Marked(tree)))
    {
      var fixed := Repair(p);
      if fixed.Raise? {
        return Raise(fixed.error);
      }
      ghost var M, ok := Marked(tree), AuxRedBlack(tree);
      r := ClimbBelow(fixed.value, parentKey, pp);
      assert Marked(tree) == M && AuxRedBlack(tree) == ok;
    }

    /** `_insert_fixup(p)` when `p` is red; a black `p` is left as it is. */
    method Repair(p: Node) returns (r: Outcome<Node>)
      requires tree.Valid() && p in tree.Repr
      modifies tree, tree.Repr`parent, tree.Repr`left, tree.Repr`right, tree.Repr`tree, tree.Repr`isRoot, tree.Repr`minDepth, tree.Repr`maxDepth, tree.Repr`color, tree.Repr`bh
      ensures tree.Valid() && tree.Repr == old(tree.Repr) && InOrder(tree.shape) == old(InOrder(tree.shape))
      ensures r.Raise? ==> r.error == AttributeError
      ensures r.Ok? ==> r.value in tree.Repr
      ensures old(p.color) != Red ==> r == Ok(p) && unchanged(tree) && unchanged(tree.Repr)
      ensures old(Settled(tree, p)) ==> r.Ok? && AuxRedBlack(tree)
      ensures Count(Marked(tree)) == old(Count(Marked(tree)))
    {
      if p.color == Red {
        r := InsertFixup(tree, p);
      } else {
        r := Ok(p);
      }
    }

    /** The walk that ends `_aux_concatenate`: up to the structural root
        when `parentKey` is `None`, otherwise up until the parent holds
        `parentKey`; that parent is the node `pp` that held it before. Running
        off the top raises `AttributeError`. */
    method ClimbBelow(x: Node, parentKey: RB.Option<int>, ghost pp: Node?) returns (r: Outcome<Node>)
      requires tree.Valid() && x in tree.Repr
      requires parentKey.None? <==> pp == null
      requires pp != null ==> pp in tree.Repr && pp.key == parentKey.value
      ensures r.Raise? ==> r.error == AttributeError
      ensures r.Ok? ==> r.value in tree.Repr && r.value.parent == pp
      ensures x.parent == pp ==> r == Ok(x)
      ensures parentKey.None? ==> r.Ok?
    {
      var w := x;
      if parentKey.None? {
        while w.parent != null
          invariant w in tree.Repr && (x.parent == pp ==> w == x)
          decreases Depth(tree.shape, w)
        {
          RB.DepthStep(tree, w);
          w := w.parent;
        }
        return Ok(w);
      }
      while true
        invariant w in tree.Repr && (x.parent == pp ==> w == x)
        decreases Depth(tree.shape, w)
      {
        if w.parent == null {
          return Raise(AttributeError);
        }
        RB.DepthStep(tree, w);
        if w.parent.key == parentKey.value {
          SameNode(tree, w.parent, pp);
          return Ok(w);
        }
        w := w.parent;
      }
    }

    /** `_aux_split(p, root_key)`: with `root_key` the key of `p` itself
        nothing happens; otherwise the loop of `SplitLoop`, with the stop
        test as intended (`StopsAt`). On success `p` is an auxiliary root,
        or holds the root key, or the last parent it was rotated over held
        the root key, and no earlier one did. The answer is `p`. */
    method AuxSplit(p: Node, rootKey: RB.Option<int>, fuel: nat) returns (r: Outcome<Node>, ghost passed: seq<int>)
      requires tree.Valid() && p in tree.Repr
      modifies tree, tree.Repr`parent, tree.Repr`left, tree.Repr`right, tree.Repr`tree, tree.Repr`isRoot, tree.Repr`minDepth, tree.Repr`maxDepth, tree.Repr`color, tree.Repr`bh
      ensures tree.Valid() && tree.Repr == old(tree.Repr) && InOrder(tree.shape) == old(InOrder(tree.shape))
      ensures r.Raise? ==> r.error == AttributeError || r.error == OutOfFuel
      ensures r.Ok? ==>
        r.value == p && (p.isRoot || rootKey == RB.Some(p.key) || (|passed| > 0 && StopsAt(rootKey, passed[|passed| - 1])))
      ensures forall i :: 0 <= i < |passed| - 1 ==> !StopsAt(rootKey, passed[i])
      ensures rootKey == RB.Some(p.key) ==> r == Ok(p) && passed == [] && unchanged(tree) && unchanged(tree.Repr)
      ensures Count(Marked(tree)) == old(Count(Marked(tree)))
    {
      if rootKey.Some? && p.key == rootKey.value {
        return Ok(p), [];
      }
      r, passed := SplitLoop(p, rootKey, fuel, false);
    }

    /** `_aux_split` with the stop test as written (`StopsAtAsWritten`): a
        root key of 0 never stops the loop, so on success `p` is an
        auxiliary root even when it was rotated over the node holding 0. */
    method AuxSplitAsWritten(p: Node, rootKey: RB.Option<int>, fuel: nat) returns (r: Outcome<Node>, ghost passed: seq<int>)
      requires tree.Valid() && p in tree.Repr
      modifies tree, tree.Repr`parent, tree.Repr`left, tree.Repr`right, tree.Repr`tree, tree.Repr`isRoot, tree.Repr`minDepth, tree.Repr`maxDepth, tree.Repr`color, tree.Repr`bh
      ensures tree.Valid() && tree.Repr == old(tree.Repr) && InOrder(tree.shape) == old(InOrder(tree.shape))
      ensures r.Raise? ==> r.error == AttributeError || r.error == OutOfFuel
      ensures r.Ok? ==>
        r.value == p && (p.isRoot || rootKey == RB.Some(p.key) || (|passed| > 0 && StopsAtAsWritten(rootKey, passed[|passed| - 1])))
      ensures forall i :: 0 <= i < |passed| - 1 ==> !StopsAtAsWritten(rootKey, passed[i])
      ensures rootKey == RB.Some(0) && r.Ok? ==> p.isRoot || p.key == 0
      ensures Count(Marked(tree)) == old(Count(Marked(tree)))
    {
      if rootKey.Some? && p.key == rootKey.value {
        return Ok(p), [];
      }
      r, passed := SplitLoop(p, rootKey, fuel, true);
    }

    /** The loop of `_aux_split`: while `p` is not marked and the root key
        has not been passed, note whether the parent holds the root key
        (the test as written, or as intended), rotate `p` up and
        concatenate the subtree its old parent roots. The node stays `p`
        throughout (the concatenation hands back a child of `p`, whose
        parent is taken). `passed` lists the keys of the parents rotated
        over: the loop stops after the first that passes the test, or when
        `p` is marked. The loop's progress is not bounded in terms of the
        shape, so it runs on `fuel`; a missing parent raises
        `AttributeError`. */
    method SplitLoop(p: Node, rootKey: RB.Option<int>, fuel: nat, asWritten: bool) returns (r: Outcome<Node>, ghost passed: seq<int>)
      requires tree.Valid() && p in tree.Repr
      modifies tree, tree.Repr`parent, tree.Repr`left, tree.Repr`right, tree.Repr`tree, tree.Repr`isRoot, tree.Repr`minDepth, tree.Repr`maxDepth, tree.Repr`color, tree.Repr`bh
      ensures tree.Valid() && tree.Repr == old(tree.Repr) && InOrder(tree.shape) == old(InOrder(tree.shape))
      ensures r.Raise? ==> r.error == AttributeError || r.error == OutOfFuel
      ensures r.Ok? ==> r.value == p && (p.isRoot || (|passed| > 0 && Stops(asWritten, rootKey, passed[|passed| - 1])))
      ensures forall i :: 0 <= i < |passed| - 1 ==> !Stops(asWritten, rootKey, passed[i])
      ensures Count(Marked(tree)) == old(Count(Marked(tree)))
    {
      var found := false;
      var x, f := p, fuel;
      passed := [];
      while !x.isRoot && !found
        invariant tree.Valid() && tree.Repr == old(tree.Repr) && InOrder(tree.shape) == old(InOrder(tree.shape))
        invariant x == p && Count(Marked(tree)) == old(Count(Marked(tree)))
        invariant found <==> |passed| > 0 && Stops(asWritten, rootKey, passed[|passed| - 1])
        invariant forall i :: 0 <= i < |passed| - 1 ==> !Stops(asWritten, rootKey, passed[i])
        decreases f
      {
        if f == 0 {
          return Raise(OutOfFuel), passed;
        }
        f := f - 1;
        if x.parent == null {
          return Raise(AttributeError), passed;
        }
        passed := passed + [x.parent.key];
        if Stops(asWritten, rootKey, x.parent.key) {
          found := true;
        }
        var step := SplitStep(x);
        if step.Raise? {
          return Raise(step.error), passed;
        }
        x := step.value;
      }
      return Ok(x), passed;
    }

    /** One round of `_aux_split`: `p.rotate()`, then `_aux_concatenate` of
        the old parent, which now hangs below `p` on the side `p` came
        from. The parent of the node handed back by the concatenation is
        `p` again. */
    method SplitStep(p: Node) returns (r: Outcome<Node>)
      requires tree.Valid() && p in tree.Repr && p.parent != null
      modifies tree, tree.Repr`parent, tree.Repr`left, tree.Repr`right, tree.Repr`tree, tree.Repr`isRoot, tree.Repr`minDepth, tree.Repr`maxDepth, tree.Repr`color, tree.Repr`bh
      ensures tree.Valid() && tree.Repr == old(tree.Repr) && InOrder(tree.shape) == old(InOrder(tree.shape))
      ensures r.Raise? ==> r.error == AttributeError
      ensures r.Ok? ==> r.value == p
      ensures Count(Marked(tree)) == old(Count(Marked(tree)))
    {
      var c := p.parent;
      RB.IsRoot(tree, p);
      Rise(p, tree);
      var joined := Concatenate(c);
      if joined.Raise? {
        return Raise(joined.error);
      }
      var up := joined.value.parent;
      return Ok(up);
    }

    /** `_aux_update_depths(p)`: `_update_depths` of `p` and of each of its
        ancestors up to its auxiliary root, then `_aux_search` for the key of
        `p` from that root, which finds `p` again. Only summaries change, and
        the summary of `p` is refolded from its children. When the auxiliary
        root is the unmarked structural root the walk runs off the top and
        raises `AttributeError`. */
    method AuxUpdateDepths(p: Node) returns (r: Outcome<Node>)
      requires tree.Valid() && p in tree.Repr
      modifies tree.Repr`minDepth, tree.Repr`maxDepth
      ensures r.Raise? <==> AuxRoot(tree.shape, p, Marked(tree)) !in Marked(tree)
      ensures r.Raise? ==> r.error == AttributeError
      ensures r.Ok? ==> r.value == p
      ensures p.minDepth == FoldMin(p) && p.maxDepth == FoldMax(p)
      ensures old(AccurateBut(tree, p, AuxRoot(tree.shape, p, Marked(tree)))) ==> Summarised(tree)
      ensures old(Summarised(tree)) ==> Summarised(tree)
    {
      ghost var a := AuxRoot(tree.shape, p, Marked(tree));
      SummarisedAccurate(tree, p, a);
      ghost var stale := AccurateBut(tree, p, a);
      NotOwnChild(tree, p);
      Refold(p, a, stale);
      var key := p.key;
      var top := RefreshAbove(p, stale);
      if top.Raise? {
        return Raise(top.error);
      }
      var q := AuxSearch(key, top.value);
      Refound(tree, p, top.value, q);
      return Ok(q);
    }

    /** `_update_depths(p)` at the start of the climb, where only `p` and
        its ancestors inside the subtree of `a` may be stale: afterwards `p`
        is accurate. */
    method Refold(p: Node, ghost a: Node, ghost stale: bool)
      requires tree.Valid() && p in tree.Repr && p.left != p && p.right != p
      requires stale ==> AccurateBut(tree, p, a)
      modifies p`minDepth, p`maxDepth
      ensures p.minDepth == FoldMin(p) && p.maxDepth == FoldMax(p)
      ensures stale ==> Accurate(tree, p) && AccurateBut(tree, p, a)
    {
      UpdateDepths(tree, p);
      if stale {
        forall n | n in tree.Repr && n != p
          ensures Accurate(tree, n) == old(Accurate(tree, n))
        {
        }
        RefoldHere(tree, p, a);
      }
    }

    /** The climb of `_aux_update_depths`: `_update_depths` of each proper
        ancestor of `p` up to the first marked node, which is the auxiliary
        root of `p`; running off the top raises `AttributeError`. The
        summaries of `p` and of its children are not touched. */
    method RefreshAbove(p: Node, ghost stale: bool) returns (r: Outcome<Node>)
      requires tree.Valid() && p in tree.Repr
      requires stale ==> Accurate(tree, p) && AccurateBut(tree, p, AuxRoot(tree.shape, p, Marked(tree)))
      modifies tree.Repr`minDepth, tree.Repr`maxDepth
      ensures r.Raise? <==> AuxRoot(tree.shape, p, Marked(tree)) !in Marked(tree)
      ensures r.Raise? ==> r.error == AttributeError
      ensures r.Ok? ==> r.value == AuxRoot(tree.shape, p, Marked(tree)) && r.value in tree.Repr
      ensures p.minDepth == old(p.minDepth) && p.maxDepth == old(p.maxDepth)
      ensures FoldMin(p) == old(FoldMin(p)) && FoldMax(p) == old(FoldMax(p))
      ensures stale ==> Summarised(tree)
    {
      ghost var s, M := tree.shape, Marked(tree);
      ghost var a := AuxRoot(s, p, M);
      var w := p;
      while !w.isRoot
        invariant w in tree.Repr && AuxRoot(s, w, M) == a
        invariant stale ==> Accurate(tree, w) && AccurateBut(tree, w, a)
        invariant Depth(s, w) <= Depth(s, p)
        invariant p.minDepth == old(p.minDepth) && p.maxDepth == old(p.maxDepth)
        invariant FoldMin(p) == old(FoldMin(p)) && FoldMax(p) == old(FoldMax(p))
        decreases Depth(s, w)
      {
        if w.parent == null {
          ClimbOffTop(tree, w);
          if stale {
            RefoldDone(tree, w, a);
          }
          return Raise(AttributeError);
        }
        RB.IsRoot(tree, w);
        w := RefreshParent(w, p, a);
      }
      AuxRootFacts(s, w, M);
      if stale {
        RefoldDone(tree, w, a);
      }
      return Ok(w);
    }

    /** One step of that climb: up to the parent `u` of `w`, which is a
        proper ancestor of `p` and none of its children, and `_update_depths`
        of `u`. */
    method RefreshParent(w: Node, ghost p: Node, ghost a: Node) returns (u: Node)
      requires tree.Valid() && w in tree.Repr && p in tree.Repr && w.parent != null
      requires Depth(tree.shape, w) <= Depth(tree.shape, p)
      requires !w.isRoot && a == AuxRoot(tree.shape, w, Marked(tree))
      modifies w.parent`minDepth, w.parent`maxDepth
      ensures u == w.parent && u in tree.Repr && Depth(tree.shape, u) < Depth(tree.shape, w)
      ensures AuxRoot(tree.shape, u, Marked(tree)) == a
      ensures u != p && u != p.left && u != p.right
      ensures old(Accurate(tree, w) && AccurateBut(tree, w, a)) ==> Accurate(tree, u) && AccurateBut(tree, u, a)
    {
      ghost var stale := Accurate(tree, w) && AccurateBut(tree, w, a);
      Climb(tree, w);
      u := w.parent;
      NotOwnChild(tree, u);
      RB.ChildOf(tree, p);
      if p.left != null {
        RB.DepthStep(tree, p.left);
      }
      if p.right != null {
        RB.DepthStep(tree, p.right);
      }
      UpdateDepths(tree, u);
      if stale {
        AuxRootFacts(tree.shape, w, Marked(tree));
        forall n | n in tree.Repr && n != u
          ensures Accurate(tree, n) == old(Accurate(tree, n))
        {
        }
        RefoldParent(tree, w, a);
      }
    }

    /** `_aux_set_root_mark(p, mark)`: set the flag of `p`, which adds `p`
        to or takes it from the marked nodes; with a parent, refresh the
        summaries from the parent up to its auxiliary root and come back down
        to `p` by comparing keys. The answer is `p`. `None` raises
        `AttributeError`, and so does a refresh that runs off the top. */
    method SetRootMark(p: Node?, mark: bool) returns (r: Outcome<Node>)
      requires tree.Valid() && (p != null ==> p in tree.Repr)
      modifies tree.Repr`isRoot, tree.Repr`minDepth, tree.Repr`maxDepth
      ensures p == null ==> r == Raise(AttributeError) && unchanged(tree.Repr)
      ensures p != null ==>
        p.isRoot == mark && Marked(tree) == (if mark then old(Marked(tree)) + {p} else old(Marked(tree)) - {p})
      ensures r.Raise? ==> r.error == AttributeError
      ensures p != null && p.parent != null ==>
        (r.Raise? <==> (AuxRoot(tree.shape, p.parent, Marked(tree)) !in Marked(tree)))
      ensures r.Ok? ==> r.value == p
      ensures p != null && old(Summarised(tree)) ==> Summarised(tree)
    {
      if p == null {
        return Raise(AttributeError);
      }
      SetMark(p, mark);
      if p.parent != null {
        var key := p.key;
        Climb(tree, p);
        Unfold(tree, p.parent);
        var u := AuxUpdateDepths(p.parent);
        if u.Raise? {
          return Raise(u.error);
        }
        var w := u.value;
        var next := if w.key > key then w.left else w.right;
        return Ok(next);
      }
      return Ok(p);
    }

    /** `p.is_root = mark`. Only the summaries of the parent of `p` and of
        its ancestors up to the auxiliary root the parent now belongs to can
        go stale, and none when `p` has no parent. */
    method SetMark(p: Node, mark: bool)
      requires tree.Valid() && p in tree.Repr
      modifies p`isRoot
      ensures p.isRoot == mark
      ensures Marked(tree) == if mark then old(Marked(tree)) + {p} else old(Marked(tree)) - {p}
      ensures old(Summarised(tree)) && p.parent == null ==> Summarised(tree)
      ensures old(Summarised(tree)) && p.parent != null ==>
        AccurateBut(tree, p.parent, AuxRoot(tree.shape, p.parent, Marked(tree)))
    {
      ghost var M := Marked(tree);
      ghost var ok := Summarised(tree);
      if ok {
        SummarisedAccurate(tree, p, p);
      }
      p.isRoot := mark;
      if ok {
        MarkMoved(tree, p, M);
      }
    }

    /** The walks of `_cut` that find `l` (`left`) and `r` (not `left`):
        into the near child while it is continuing and its subtree reaches
        below depth `d`; else stop at a node deeper than `d`; else cross to
        the far child. The last case of the source's chain ('Case not
        covered') cannot be reached. Crossing to a missing child raises
        `AttributeError` at the next step. */
    method FindDeep(p0: Node, d: int, left: bool) returns (r: Outcome<Node>)
      requires tree.Valid() && p0 in tree.Repr
      ensures r.Raise? ==> r.error == AttributeError
      ensures r.Ok? ==> r.value in tree.Repr && r.value.depth > d
      ensures Summarised(tree) && p0.maxDepth > d ==>
        r.Ok? && Deepest(AuxPart(Sub(tree.shape, p0), Marked(tree)), r.value, d, left)
    {
      ghost var good := Summarised(tree) && p0.maxDepth > d;
      ghost var A := AuxPart(Sub(tree.shape, p0), Marked(tree));
      if good {
        WalkStart(tree, p0, d, left);
      }
      var p: Node? := p0;
      while true
        invariant p != null ==> p in tree.Repr
        invariant good ==> p != null && Walking(tree, A, p, d, left)
        decreases if p == null then 0 else Size(Sub(tree.shape, p)) + 1
      {
        if p == null {
          return Raise(AttributeError);
        }
        Unfold(tree, p);
        var near, far := if left then p.left else p.right, if left then p.right else p.left;
        if !IsRootOrNone(near) && near.maxDepth > d {
          if good {
            WalkNear(tree, A, p, d, left);
          }
          p := near;
        } else if p.depth > d {
          if good {
            WalkFound(tree, A, p, d, left);
          }
          return Ok(p);
        } else if p.depth <= d && ((!IsRootOrNone(near) && near.maxDepth <= d) || IsRootOrNone(near)) {
          if good {
            WalkFar(tree, A, p, d, left);
          }
          p := far;
        } else {
          assert false;
        }
      }
    }

    /** Up the parents of `x` to the node holding `key` (`while p.key !=
        key: p = p.parent`); running off the top raises `AttributeError`. */
    method ClimbToKey(x: Node, key: int) returns (r: Outcome<Node>)
      requires tree.Valid() && x in tree.Repr
      ensures r.Raise? ==> r.error == AttributeError
      ensures r.Ok? ==> r.value in tree.Repr && r.value.key == key
    {
      var w := x;
      while w.key != key
        invariant w in tree.Repr
        decreases Depth(tree.shape, w)
      {
        if w.parent == null {
          return Raise(AttributeError);
        }
        RB.DepthStep(tree, w);
        w := w.parent;
      }
      return Ok(w);
    }

    /** The closing concatenations of `_cut` and `_join`, from the node `z`
        whose mark was just set: with `first`, `_aux_concatenate` of its
        parent; with a key in `second`, up to the node holding it and
        `_aux_concatenate` of that. */
    method Rejoin(z: Node, first: bool, second: RB.Option<int>) returns (r: Outcome<Node>)
      requires tree.Valid() && z in tree.Repr
      modifies tree, tree.Repr`parent, tree.Repr`left, tree.Repr`right, tree.Repr`tree, tree.Repr`isRoot, tree.Repr`minDepth, tree.Repr`maxDepth, tree.Repr`color, tree.Repr`bh
      ensures tree.Valid() && tree.Repr == old(tree.Repr) && InOrder(tree.shape) == old(InOrder(tree.shape))
      ensures r.Raise? ==> r.error == AttributeError
      ensures r.Ok? ==> r.value in tree.Repr
      ensures !first && second.None? ==> r == Ok(z) && unchanged(tree) && unchanged(tree.Repr)
      ensures Count(Marked(tree)) == old(Count(Marked(tree)))
    {
      var cur := z;
      if first {
        if z.parent == null {
          return Raise(AttributeError);
        }
        RB.IsRoot(tree, z);
        var c := Concatenate(z.parent);
        if c.Raise? {
          return Raise(c.error);
        }
        cur := c.value;
      }
      if second.Some? {
        var k := ClimbToKey(cur, second.value);
        if k.Raise? {
          return Raise(k.error);
        }
        var c := Concatenate(k.value);
        if c.Raise? {
          return Raise(c.error);
        }
        cur := c.value;
      }
      return Ok(cur);
    }

    /** `_cut(p, d)`: from the auxiliary root of `p`, nothing to do when no
        node of the auxiliary tree lies deeper than `d`; otherwise the nodes
        deeper than `d` (between `l` and `r`) are split off as an
        auxiliary tree of their own (`CutBelow`). `None` raises
        `AttributeError`. */
    method Cut(p0: Node?, d: int, fuel: nat) returns (r: Outcome<Node>)
      requires tree.Valid() && (p0 != null ==> p0 in tree.Repr)
      modifies tree, tree.Repr`parent, tree.Repr`left, tree.Repr`right, tree.Repr`tree, tree.Repr`isRoot, tree.Repr`minDepth, tree.Repr`maxDepth, tree.Repr`color, tree.Repr`bh
      ensures tree.Valid() && tree.Repr == old(tree.Repr) && InOrder(tree.shape) == old(InOrder(tree.shape))
      ensures r.Raise? ==> r.error == AttributeError || r.error == OutOfFuel
      ensures p0 == null ==> r == Raise(AttributeError)
      ensures r.Ok? ==> r.value in tree.Repr
      ensures p0 != null ==>
        var a := old(AuxRoot(tree.shape, p0, Marked(tree)));
        (a != null && a in old(Marked(tree)) && old(a.maxDepth) <= d ==>
          r.Ok? && r.value == a && unchanged(tree) && unchanged(tree.Repr))
      ensures old(Count(Marked(tree))) <= Count(Marked(tree)) <= old(Count(Marked(tree))) + 1
    {
      var g := GoToRoot(p0);
      if g.Raise? {
        return Raise(g.error);
      }
      var p := g.value;
      if p == null {
        return Raise(AttributeError);
      }
      if p.maxDepth <= d {
        return Ok(p);
      }
      r := CutBelow(p, d, fuel);
    }

    /** The body of `_cut` at an auxiliary root `p` some node of whose
        auxiliary tree lies deeper than `d`: find `l` and its predecessor,
        split there (or go back to the root), find `r` and its successor,
        split there below the first split, mark the middle part as an
        auxiliary tree of its own, and concatenate back what lies around
        it. */
    method CutBelow(p: Node, d: int, fuel: nat) returns (r: Outcome<Node>)
      requires tree.Valid() && p in tree.Repr
      modifies tree, tree.Repr`parent, tree.Repr`left, tree.Repr`right, tree.Repr`tree, tree.Repr`isRoot, tree.Repr`minDepth, tree.Repr`maxDepth, tree.Repr`color, tree.Repr`bh
      ensures tree.Valid() && tree.Repr == old(tree.Repr) && InOrder(tree.shape) == old(InOrder(tree.shape))
      ensures r.Raise? ==> r.error == AttributeError || r.error == OutOfFuel
      ensures r.Ok? ==> r.value in tree.Repr
      ensures old(Count(Marked(tree))) <= Count(Marked(tree)) <= old(Count(Marked(tree))) + 1
    {
      var l := FindDeep(p, d, true);
      if l.Raise? {
        return Raise(l.error);
      }
      var pre := FindPredecessor(l.value);
      if pre.Raise? {
        return Raise(pre.error);
      }
      var lPre, lPreExists := pre.value.0, pre.value.1;
      var lPreKey: RB.Option<int> := if lPreExists then RB.Some(lPre.key) else RB.None;
      var left := SplitLeft(lPre, lPreExists, fuel);
      if left.Raise? {
        return Raise(left.error);
      }
      r := CutRight(left.value.0, d, lPreKey, left.value.1, fuel);
    }

    /** The second half of `_cut`, from the node `x` the first split left:
        find `r` and its successor, split there below the node holding
        `subtree_root_key`, mark the middle part as an auxiliary tree of its
        own and concatenate back what lies around it. */
    method CutRight(x: Node, d: int, lPreKey: RB.Option<int>, subtreeRootKey: RB.Option<int>, fuel: nat) returns (r: Outcome<Node>)
      requires tree.Valid() && x in tree.Repr
      modifies tree, tree.Repr`parent, tree.Repr`left, tree.Repr`right, tree.Repr`tree, tree.Repr`isRoot, tree.Repr`minDepth, tree.Repr`maxDepth, tree.Repr`color, tree.Repr`bh
      ensures tree.Valid() && tree.Repr == old(tree.Repr) && InOrder(tree.shape) == old(InOrder(tree.shape))
      ensures r.Raise? ==> r.error == AttributeError || r.error == OutOfFuel
      ensures r.Ok? ==> r.value in tree.Repr
      ensures old(Count(Marked(tree))) <= Count(Marked(tree)) <= old(Count(Marked(tree))) + 1
    {
      var rr := FindDeep(x, d, false);
      if rr.Raise? {
        return Raise(rr.error);
      }
      var suc := FindSuccessor(rr.value);
      if suc.Raise? {
        return Raise(suc.error);
      }
      var rSuc, rSucExists := suc.value.0, suc.value.1;
      var z := SplitRight(rSuc, rSucExists, subtreeRootKey, fuel);
      if z.Raise? {
        return Raise(z.error);
      }
      r := MarkRejoin(z.value, true, rSucExists, lPreKey);
    }

    /** The tail shared by `_cut` and `_join`: set or clear the mark of the
        middle piece `z`, then concatenate the pieces back around it. */
    method MarkRejoin(z: Node?, mark: bool, first: bool, second: RB.Option<int>) returns (r: Outcome<Node>)
      requires tree.Valid() && (z != null ==> z in tree.Repr)
      modifies tree, tree.Repr`parent, tree.Repr`left, tree.Repr`right, tree.Repr`tree, tree.Repr`isRoot, tree.Repr`minDepth, tree.Repr`maxDepth, tree.Repr`color, tree.Repr`bh
      ensures tree.Valid() && tree.Repr == old(tree.Repr) && InOrder(tree.shape) == old(InOrder(tree.shape))
      ensures z == null ==> r == Raise(AttributeError)
      ensures r.Raise? ==> r.error == AttributeError
      ensures r.Ok? ==> r.value in tree.Repr
      ensures if mark then old(Count(Marked(tree))) <= Count(Marked(tree)) <= old(Count(Marked(tree))) + 1
        else old(Count(Marked(tree))) - 1 <= Count(Marked(tree)) <= old(Count(Marked(tree)))
    {
      ghost var M := Marked(tree);
      var marked := SetRootMark(z, mark);
      if z != null {
        CountOne(M, z);
      }
      if marked.Raise? {
        return Raise(marked.error);
      }
      r := Rejoin(marked.value, first, second);
    }

    /** The second split of `_cut`: with a successor `r_suc`, split there and
        hand back its left child, the piece to be marked; without, hand back
        `r_suc` itself. */
    method SplitRight(rSuc: Node, rSucExists: bool, subtreeRootKey: RB.Option<int>, fuel: nat) returns (r: Outcome<Node?>)
      requires tree.Valid() && rSuc in tree.Repr
      modifies tree, tree.Repr`parent, tree.Repr`left, tree.Repr`right, tree.Repr`tree, tree.Repr`isRoot, tree.Repr`minDepth, tree.Repr`maxDepth, tree.Repr`color, tree.Repr`bh
      ensures tree.Valid() && tree.Repr == old(tree.Repr) && InOrder(tree.shape) == old(InOrder(tree.shape))
      ensures r.Raise? ==> rSucExists && (r.error == AttributeError || r.error == OutOfFuel)
      ensures r.Ok? ==> r.value == (if rSucExists then rSuc.left else rSuc)
      ensures r.Ok? && r.value != null ==> r.value in tree.Repr
      ensures Count(Marked(tree)) == old(Count(Marked(tree)))
    {
      if !rSucExists {
        return Ok(rSuc);
      }
      var split, _ := AuxSplit(rSuc, subtreeRootKey, fuel);
      if split.Raise? {
        return Raise(split.error);
      }
      RB.ChildOf(tree, split.value);
      return Ok(split.value.left);
    }

    /** The first split of `_cut`: with a predecessor `l_pre`, split there
        and report the key of its right child (if any); without, go back to
        the auxiliary root and report its key. */
    method SplitLeft(lPre: Node, lPreExists: bool, fuel: nat) returns (r: Outcome<(Node, RB.Option<int>)>)
      requires tree.Valid() && lPre in tree.Repr
      modifies tree, tree.Repr`parent, tree.Repr`left, tree.Repr`right, tree.Repr`tree, tree.Repr`isRoot, tree.Repr`minDepth, tree.Repr`maxDepth, tree.Repr`color, tree.Repr`bh
      ensures tree.Valid() && tree.Repr == old(tree.Repr) && InOrder(tree.shape) == old(InOrder(tree.shape))
      ensures r.Raise? ==> r.error == AttributeError || r.error == OutOfFuel
      ensures r.Ok? ==> r.value.0 in tree.Repr
      ensures r.Ok? && lPreExists ==>
        r.value.0 == lPre && r.value.1 == (if lPre.right != null then RB.Some(lPre.right.key) else RB.None)
      ensures r.Ok? && !lPreExists ==> r.value.1 == RB.Some(r.value.0.key)
      ensures Count(Marked(tree)) == old(Count(Marked(tree)))
    {
      if lPreExists {
        var split, _ := AuxSplit(lPre, RB.None, fuel);
        if split.Raise? {
          return Raise(split.error);
        }
        var x := split.value;
        var key: RB.Option<int> := if x.right != null then RB.Some(x.right.key) else RB.None;
        return Ok((x, key));
      }
      var g := GoToRoot(lPre);
      if g.Raise? {
        return Raise(g.error);
      }
      var x := g.value;
      return Ok((x, RB.Some(x.key)));
    }

    /** `_join(p)`: from the auxiliary root of `p`, up to its parent `up`
        in the auxiliary tree above; `up` is the predecessor or the successor
        there of the keys below, and `JoinAt` merges the two trees around
        it. `None`, and a root without a parent, raise `AttributeError`. */
    method Join(p0: Node?, fuel: nat) returns (r: Outcome<Node>)
      requires tree.Valid() && (p0 != null ==> p0 in tree.Repr)
      modifies tree, tree.Repr`parent, tree.Repr`left, tree.Repr`right, tree.Repr`tree, tree.Repr`isRoot, tree.Repr`minDepth, tree.Repr`maxDepth, tree.Repr`color, tree.Repr`bh
      ensures tree.Valid() && tree.Repr == old(tree.Repr) && InOrder(tree.shape) == old(InOrder(tree.shape))
      ensures r.Raise? ==> r.error == AttributeError || r.error == OutOfFuel
      ensures p0 == null ==> r == Raise(AttributeError)
      ensures r.Ok? ==> r.value in tree.Repr
      ensures old(Count(Marked(tree))) - 1 <= Count(Marked(tree)) <= old(Count(Marked(tree)))
    {
      var g := GoToRoot(p0);
      if g.Raise? {
        return Raise(g.error);
      }
      var p := g.value;
      if p == null {
        return Raise(AttributeError);
      }
      var rootKey := p.key;
      var up := p.parent;
      if up == null {
        return Raise(AttributeError);
      }
      RB.IsRoot(tree, p);
      r := JoinAt(up, up.key < rootKey, fuel);
    }

    /** The two cases of `_join` at the node `up` above the bottom tree:
        with `below` (`up` is `l_pre`) split at `up`, find its successor
        and split there below the old right child of `up`, unmark the part
        between them, concatenate at the successor and then at `up`; without
        `below` (`up` is `r_suc`) the mirror image. */
    method JoinAt(up: Node, below: bool, fuel: nat) returns (r: Outcome<Node>)
      requires tree.Valid() && up in tree.Repr
      modifies tree, tree.Repr`parent, tree.Repr`left, tree.Repr`right, tree.Repr`tree, tree.Repr`isRoot, tree.Repr`minDepth, tree.Repr`maxDepth, tree.Repr`color, tree.Repr`bh
      ensures tree.Valid() && tree.Repr == old(tree.Repr) && InOrder(tree.shape) == old(InOrder(tree.shape))
      ensures r.Raise? ==> r.error == AttributeError || r.error == OutOfFuel
      ensures r.Ok? ==> r.value in tree.Repr
      ensures old(Count(Marked(tree))) - 1 <= Count(Marked(tree)) <= old(Count(Marked(tree)))
    {
      var upKey := up.key;
      var split, _ := AuxSplit(up, RB.None, fuel);
      if split.Raise? {
        return Raise(split.error);
      }
      var x := split.value;
      var inner := if below then x.right else x.left;
      var subtreeRootKey: RB.Option<int> := if inner != null then RB.Some(inner.key) else RB.None;
      var next: Outcome<(Node, bool)>;
      if below {
        next := FindSuccessor(x);
      } else {
        next := FindPredecessor(x);
      }
      if next.Raise? {
        return Raise(next.error);
      }
      r := JoinRest(next.value.0, next.value.1, below, subtreeRootKey, upKey, fuel);
    }

    /** The rest of `_join` once the neighbour `y` of `up` on the far side
        is known (`found`) or not: the second split, the unmarking of the
        middle part and the concatenations at `y` and at `up`. */
    method JoinRest(y: Node, found: bool, below: bool, subtreeRootKey: RB.Option<int>, upKey: int, fuel: nat)
      returns (r: Outcome<Node>)
      requires tree.Valid() && y in tree.Repr
      modifies tree, tree.Repr`parent, tree.Repr`left, tree.Repr`right, tree.Repr`tree, tree.Repr`isRoot, tree.Repr`minDepth, tree.Repr`maxDepth, tree.Repr`color, tree.Repr`bh
      ensures tree.Valid() && tree.Repr == old(tree.Repr) && InOrder(tree.shape) == old(InOrder(tree.shape))
      ensures r.Raise? ==> r.error == AttributeError || r.error == OutOfFuel
      ensures r.Ok? ==> r.value in tree.Repr
      ensures old(Count(Marked(tree))) - 1 <= Count(Marked(tree)) <= old(Count(Marked(tree)))
    {
      var z := JoinMiddle(y, found, below, subtreeRootKey, fuel);
      if z.Raise? {
        return Raise(z.error);
      }
      r := MarkRejoin(z.value, false, found, RB.Some(upKey));
    }

    /** The second split of `_join`: with a neighbour `y` on the far side,
        split at `y` below the node holding `subtree_root_key` and take its
        child on the side of `up`; without, `y` is `up` itself and its child
        on the far side is taken. */
    method JoinMiddle(y: Node, found: bool, below: bool, subtreeRootKey: RB.Option<int>, fuel: nat) returns (r: Outcome<Node?>)
      requires tree.Valid() && y in tree.Repr
      modifies tree, tree.Repr`parent, tree.Repr`left, tree.Repr`right, tree.Repr`tree, tree.Repr`isRoot, tree.Repr`minDepth, tree.Repr`maxDepth, tree.Repr`color, tree.Repr`bh
      ensures tree.Valid() && tree.Repr == old(tree.Repr) && InOrder(tree.shape) == old(InOrder(tree.shape))
      ensures r.Raise? ==> r.error == AttributeError || r.error == OutOfFuel
      ensures r.Ok? && r.value != null ==> r.value in tree.Repr
      ensures !found ==> r == Ok(if below then old(y.right) else old(y.left)) && unchanged(tree) && unchanged(tree.Repr)
      ensures Count(Marked(tree)) == old(Count(Marked(tree)))
    {
      if found {
        var split, _ := AuxSplit(y, subtreeRootKey, fuel);
        if split.Raise? {
          return Raise(split.error);
        }
        var w := split.value;
        RB.ChildOf(tree, w);
        return Ok(if below then w.left else w.right);
      }
      RB.ChildOf(tree, y);
      return Ok(if below then y.right else y.left);
    }

    /** `search(key)`: the ordinary walk from the structural root; on
        entering a marked node the preferred paths change (`Reroute`), and
        at the node holding `key` the final cut and join take place
        (`Finish`). A missing root or child raises `AttributeError`, so a
        search that returns found a node holding `key`: the search is
        defined only for keys of the tree. */
    method Search(key: int, fuel: nat) returns (r: Outcome<Node>)
      requires tree.Valid()
      modifies tree, tree.Repr`parent, tree.Repr`left, tree.Repr`right, tree.Repr`tree, tree.Repr`isRoot, tree.Repr`minDepth, tree.Repr`maxDepth, tree.Repr`color, tree.Repr`bh
      ensures tree.Valid() && tree.Repr == old(tree.Repr) && InOrder(tree.shape) == old(InOrder(tree.shape))
      ensures r.Raise? ==> r.error == AttributeError || r.error == OutOfFuel || r.error == Inconsistent
      ensures r.Ok? ==> r.value in tree.Repr && key in old(KeySet(tree.shape))
      ensures r.Ok? ==> r.value.key == key || exists a :: Misses(tree, a, r.value, key)
    {
      ghost var s0 := tree.shape;
      var p: Node? := tree.root;
      if p == null {
        return Raise(AttributeError);
      }
      var f := fuel;
      while p.key != key
        invariant tree.Valid() && p in tree.Repr && tree.Repr == old(tree.Repr)
        invariant InOrder(tree.shape) == InOrder(s0)
        decreases f, Size(Sub(tree.shape, p))
      {
        Unfold(tree, p);
        var next := if p.key < key then p.right else p.left;
        if next == null {
          return Raise(AttributeError);
        }
        if next.isRoot {
          if f == 0 {
            return Raise(OutOfFuel);
          }
          f := f - 1;
          var j := Reroute(next, key, fuel);
          if j.Raise? {
            return Raise(j.error);
          }
          p := j.value;
        } else {
          p := next;
        }
      }
      KeySetNodes(tree.shape, key);
      RB.SameKeys(s0, tree.shape);
      r := Finish(p, key, fuel);
    }

    /** The change of preferred paths on entering the marked node `p`: cut
        the auxiliary tree of its parent at depth `p.min_depth - 1`, search
        the top part for `key`, step one further down (a node holding `key`
        there is an inconsistency and raises), and join what lies there. */
    method Reroute(p: Node, key: int, fuel: nat) returns (r: Outcome<Node>)
      requires tree.Valid() && p in tree.Repr
      modifies tree, tree.Repr`parent, tree.Repr`left, tree.Repr`right, tree.Repr`tree, tree.Repr`isRoot, tree.Repr`minDepth, tree.Repr`maxDepth, tree.Repr`color, tree.Repr`bh
      ensures tree.Valid() && tree.Repr == old(tree.Repr) && InOrder(tree.shape) == old(InOrder(tree.shape))
      ensures r.Raise? ==> r.error == AttributeError || r.error == OutOfFuel || r.error == Inconsistent
      ensures r.Ok? ==> r.value in tree.Repr
      ensures old(Count(Marked(tree))) - 1 <= Count(Marked(tree)) <= old(Count(Marked(tree))) + 1
    {
      var depth := p.minDepth - 1;
      RB.IsRoot(tree, p);
      var c := Cut(p.parent, depth, fuel);
      if c.Raise? {
        return Raise(c.error);
      }
      var q := AuxSearch(key, c.value);
      RB.ChildOf(tree, q);
      var n: Node?;
      if q.key < key {
        n := q.right;
      } else if q.key > key {
        n := q.left;
      } else {
        return Raise(Inconsistent);
      }
      r := Join(n, fuel);
    }

    /** The end of `search` at the node `p` holding `key`: cut its
        auxiliary tree at `p.depth`, search down to `p` again, join the
        first marked node on the way to its predecessor (if the walk left,
        then right, meets one), and search for `key` from the auxiliary
        root reached. */
    method Finish(p: Node, key: int, fuel: nat) returns (r: Outcome<Node>)
      requires tree.Valid() && p in tree.Repr
      modifies tree, tree.Repr`parent, tree.Repr`left, tree.Repr`right, tree.Repr`tree, tree.Repr`isRoot, tree.Repr`minDepth, tree.Repr`maxDepth, tree.Repr`color, tree.Repr`bh
      ensures tree.Valid() && tree.Repr == old(tree.Repr) && InOrder(tree.shape) == old(InOrder(tree.shape))
      ensures r.Raise? ==> r.error == AttributeError || r.error == OutOfFuel
      ensures r.Ok? ==> r.value in tree.Repr && (r.value.key == key || exists a :: Misses(tree, a, r.value, key))
      ensures old(Count(Marked(tree))) - 1 <= Count(Marked(tree)) <= old(Count(Marked(tree))) + 1
    {
      var c := Cut(p, p.depth, fuel);
      if c.Raise? {
        return Raise(c.error);
      }
      var w := JoinPredecessor(c.value, key, fuel);
      if w.Raise? {
        return Raise(w.error);
      }
      ghost var n := Count(Marked(tree));
      r := SearchFromRoot(w.value, key);
      assert Count(Marked(tree)) == n;
    }

    /** The middle of the end of `search`: `_aux_search` for `key` from the
        auxiliary root `root` the cut left; from the node `q` found, without
        a left child, `q` itself; otherwise the walk towards its
        predecessor, and the join of the marked node it ends at (if it
        does). */
    method JoinPredecessor(root: Node, key: int, fuel: nat) returns (r: Outcome<Node>)
      requires tree.Valid() && root in tree.Repr
      modifies tree, tree.Repr`parent, tree.Repr`left, tree.Repr`right, tree.Repr`tree, tree.Repr`isRoot, tree.Repr`minDepth, tree.Repr`maxDepth, tree.Repr`color, tree.Repr`bh
      ensures tree.Valid() && tree.Repr == old(tree.Repr) && InOrder(tree.shape) == old(InOrder(tree.shape))
      ensures r.Raise? ==> r.error == AttributeError || r.error == OutOfFuel
      ensures r.Ok? ==> r.value in tree.Repr
      ensures old(Count(Marked(tree))) - 1 <= Count(Marked(tree)) <= old(Count(Marked(tree)))
    {
      var q := AuxSearch(key, root);
      RB.ChildOf(tree, q);
      if q.left == null {
        return Ok(q);
      }
      var v := PredecessorRoot(q.left);
      if !v.isRoot {
        return Ok(v);
      }
      r := Join(v, fuel);
    }

    /** The last step of `search`: up to the auxiliary root of `w` and
        `_aux_search` for `key` from there. The node found holds `key`, or
        no node of that auxiliary tree does. */
    method SearchFromRoot(w: Node, key: int) returns (r: Outcome<Node>)
      requires tree.Valid() && w in tree.Repr
      ensures r.Raise? ==> r.error == AttributeError
      ensures r.Ok? ==> r.value in tree.Repr && (r.value.key == key || exists a :: Misses(tree, a, r.value, key))
    {
      var g := GoToRoot(w);
      if g.Raise? {
        return Raise(g.error);
      }
      var top := AuxSearch(key, g.value);
      assert top.key != key ==> Misses(tree, g.value, top, key);
      return Ok(top);
    }

    /** The walk of `search` towards the predecessor: right while the node
        is unmarked and has a right child. It ends at a marked node or at
        one without a right child. */
    method PredecessorRoot(p0: Node) returns (v: Node)
      requires tree.Valid() && p0 in tree.Repr
      ensures v in tree.Repr && (v.isRoot || v.right == null)
    {
      var w := p0;
      while !w.isRoot && w.right != null
        invariant w in tree.Repr
        decreases Size(Sub(tree.shape, w))
      {
        Unfold(tree, w);
        w := w.right;
      }
      return w;
    }


    /** `insert`: refused with `NotImplementedError` once construction is
        over; otherwise a node of the default colour (black, black height
        1), marked and of depth 0, is hung where the walk for `key` falls
        off (or made the root). The walk has no case for an equal key and
        does not end on one, so before construction is over the key must be
        new. The node gets no data; Python's `None` is 0 here. */
    method Insert(key: int) returns (r: Outcome<()>)
      requires tree.Valid() && (!constructed ==> key !in KeySet(tree.shape))
      modifies tree, tree.Repr`left, tree.Repr`right
      ensures constructed ==> r == Raise(NotImplementedError) && tree.shape == old(tree.shape) && tree.Repr == old(tree.Repr)
      ensures !constructed ==> r == Ok(())
      ensures tree.Valid() && KeySet(tree.shape) == old(KeySet(tree.shape)) + (if constructed then {} else {key})
      ensures old(tree.Repr) <= tree.Repr && fresh(tree.Repr - old(tree.Repr))
      ensures !constructed ==> var z := Find(tree.shape, key);
        z != null && tree.Repr == old(tree.Repr) + {z} && tree.shape == Attach(old(tree.shape), z)
      ensures old(Initial(tree.Repr)) ==> Initial(tree.Repr)
    {
      if constructed {
        return Raise(NotImplementedError);
      }
      ghost var r0 := tree.Repr;
      ghost var i0 := Initial(r0);
      FindSpec(tree.shape, key);
      var z;
      if tree.root == null {
        z := MakeRoot(tree, key, 0, Black, 1);
      } else {
        var found, parent, isLeft := Locate(tree, key);
        z := HookLeaf(tree, key, 0, parent, isLeft, Black, 1);
      }
      if i0 {
        assert Initial(r0);
        InitialAdd(r0, z);
      }
      return Ok(());
    }

    /** `insert` of a new key during construction, as `perfect_inserter`
        needs it: one more key, and every node still as `insert` creates
        it. */
    method AddKey(key: int)
      requires tree.Valid() && !constructed && Initial(tree.Repr) && key !in KeySet(tree.shape)
      modifies tree, tree.Repr`left, tree.Repr`right
      ensures tree.Valid() && fresh(tree.Repr - old(tree.Repr)) && Initial(tree.Repr)
      ensures KeySet(tree.shape) == old(KeySet(tree.shape)) + {key}
    {
      var _ := Insert(key);
    }

    /** `perfect_inserter` of bstvis/tree/naive.py on this tree, while it
        is under construction: the key at index `f(n)` of the sorted keys
        first, then the keys before it and the keys after it, so that the
        tree comes out perfect. */
    method PerfectInserter(keys: seq<int>)
      requires tree.Valid() && !constructed && Initial(tree.Repr)
      requires Increasing(keys) && NaiveBst.Elems(keys) !! KeySet(tree.shape)
      modifies tree, tree.Repr`left, tree.Repr`right
      ensures tree.Valid() && fresh(tree.Repr - old(tree.Repr)) && Initial(tree.Repr)
      ensures KeySet(tree.shape) == old(KeySet(tree.shape)) + NaiveBst.Elems(keys)
      decreases |keys|, 1
    {
      var n := |keys|;
      if n == 0 {
        return;
      }
      var x := NaiveBst.F(n);
      IncreasingSplit(keys, x, KeySet(tree.shape));
      AddKey(keys[x]);
      InsertParts(keys, x);
    }

    /** The two recursive calls of `perfect_inserter`: the keys before
        index `x`, then the keys after it. */
    method InsertParts(keys: seq<int>, x: nat)
      requires x < |keys| && Increasing(keys[..x]) && Increasing(keys[x + 1..])
      requires tree.Valid() && !constructed && Initial(tree.Repr)
      requires NaiveBst.Elems(keys[..x]) !! NaiveBst.Elems(keys[x + 1..])
      requires NaiveBst.Elems(keys[..x]) !! KeySet(tree.shape) && NaiveBst.Elems(keys[x + 1..]) !! KeySet(tree.shape)
      modifies tree, tree.Repr`left, tree.Repr`right
      ensures tree.Valid() && fresh(tree.Repr - old(tree.Repr)) && Initial(tree.Repr)
      ensures KeySet(tree.shape) == old(KeySet(tree.shape)) + NaiveBst.Elems(keys[..x]) + NaiveBst.Elems(keys[x + 1..])
      decreases |keys|, 0
    {
      PerfectInserter(keys[..x]);
      PerfectInserter(keys[x + 1..]);
    }

    /** The state `__init__` leaves: insertion closed, the keys `K` in a
        valid tree every node of which is its own auxiliary tree (black, of
        black height 1) with its depth in the tree as depth and summaries. */
    ghost predicate Built(K: set<int>)
      reads this, tree, tree.Repr
    {
      constructed && tree.Valid() && KeySet(tree.shape) == K && Summarised(tree) && Initial(tree.Repr) &&
      forall n :: n in tree.Repr ==> n.depth == Depth(tree.shape, n)
    }

    /** The body of `__init__` after the check for keys, on the sorted keys:
        the perfect tree by `insert`, insertion closed, then the depths. */
    method Build(keys: seq<int>)
      requires tree.Valid() && tree.Repr == {} && !constructed && Increasing(keys)
      modifies this, tree
      ensures Built(NaiveBst.Elems(keys))
    {
      PerfectInserter(keys);
      constructed := true;
      SetDepths();
    }

    /** The end of `__init__`: `fix_depth` from the root at depth 0, after
        which every node is its own auxiliary tree with correct summaries. */
    method SetDepths()
      requires tree.Valid() && Initial(tree.Repr)
      modifies tree.Repr`depth, tree.Repr`minDepth, tree.Repr`maxDepth
      ensures tree.Valid() && Initial(tree.Repr) && Summarised(tree)
      ensures forall n :: n in tree.Repr ==> n.depth == Depth(tree.shape, n)
    {
      HungValid(tree);
      FixDepth(tree.root, 0, tree.shape);
      AllMarkedSummarised(tree);
    }

    /** `fix_depth` of `__init__`: every node of the subtree `T` below `n`
        gets `d` plus its depth in `T` as its depth, `min_depth` and
        `max_depth` (each node its own auxiliary tree). */
    method FixDepth(n: Node?, d: int, ghost T: Tree)
      requires Hung(T) && Distinct(T) && n == Top(T) && Nodes(T) <= tree.Repr
      modifies Nodes(T)`depth, Nodes(T)`minDepth, Nodes(T)`maxDepth
      ensures DepthsFrom(T, d)
      decreases T
    {
      if n == null {
        return;
      }
      FixDepth(n.left, d + 1, T.left);
      FixDepth(n.right, d + 1, T.right);
      n.depth, n.minDepth, n.maxDepth := d, d, d;
      DepthsJoin(T, d);
    }
  }

  // ---------------------------------------------------------------------
  // Construction

  /** Around index `x` a strictly increasing list splits into two strictly
      increasing lists whose keys are apart from each other, from `s[x]`
      and from any keys `K` the whole list is apart from. */
  lemma IncreasingSplit(s: seq<int>, x: nat, K: set<int>)
    requires Increasing(s) && x < |s| && NaiveBst.Elems(s) !! K
    ensures Increasing(s[..x]) && Increasing(s[x + 1..])
    ensures NaiveBst.Elems(s[..x]) !! NaiveBst.Elems(s[x + 1..])
    ensures NaiveBst.Elems(s[..x]) !! K + {s[x]} && NaiveBst.Elems(s[x + 1..]) !! K + {s[x]}
    ensures s[x] !in K
    ensures NaiveBst.Elems(s) == {s[x]} + NaiveBst.Elems(s[..x]) + NaiveBst.Elems(s[x + 1..])
  {
    var a, b := s[..x], s[x + 1..];
    assert forall k :: k in a ==> k < s[x];
    assert forall k :: k in b ==> s[x] < k;
    NaiveBst.ElemsSplit(s, x);
  }

  /** The nodes are as `insert` creates them: marked, black, of black
      height 1. */
  ghost predicate Initial(S: set<Node>)
    reads S`isRoot, S`color, S`bh
  {
    forall n :: n in S ==> n.isRoot && n.color == Black && n.bh == 1
  }

  /** A node as `insert` creates it added to such nodes. */
  lemma InitialAdd(S: set<Node>, z: Node)
    requires Initial(S)
    requires z.isRoot && z.color == Black && z.bh == 1
    ensures Initial(S + {z})
  {
  }

  /** The child pointers of the nodes of `T` follow `T`. */
  ghost predicate Hung(T: Tree)
    reads Nodes(T)`left, Nodes(T)`right
  {
    match T
    case Nil => true
    case Br(l, n, r) => n.left == Top(l) && n.right == Top(r) && Hung(l) && Hung(r)
  }

  /** In a valid tree the child pointers follow the shape. */
  lemma HungValid(t: BinaryTree)
    requires t.Valid()
    ensures Hung(t.shape) && Distinct(t.shape) && Nodes(t.shape) <= t.Repr
  {
    HungLinked(t, t.shape, null);
  }

  lemma {:induction false} HungLinked(t: BinaryTree, T: Tree, par: Node?)
    requires t.Valid() && Linked(t.links, T, par, t) && Nodes(T) <= t.Repr
    ensures Hung(T)
    decreases T
  {
    if T.Br? {
      HungLinked(t, T.left, T.node);
      HungLinked(t, T.right, T.node);
    }
  }

  /** Every node of `T` has `d` plus its depth in `T` as its depth and both
      summaries. */
  ghost predicate DepthsFrom(T: Tree, d: int)
    reads Nodes(T)`depth, Nodes(T)`minDepth, Nodes(T)`maxDepth
  {
    forall m :: m in Nodes(T) ==> m.depth == d + Depth(T, m) && m.minDepth == m.depth && m.maxDepth == m.depth
  }

  /** Depths one further down in both subtrees and `d` at the top give
      depths from `d` in the whole. */
  lemma DepthsJoin(T: Tree, d: int)
    requires T.Br? && Distinct(T)
    requires DepthsFrom(T.left, d + 1) && DepthsFrom(T.right, d + 1)
    requires T.node.depth == d && T.node.minDepth == d && T.node.maxDepth == d
    ensures DepthsFrom(T, d)
  {
  }

  /** Sorting keeps the set of keys. */
  lemma ElemsSorted(s: seq<int>)
    ensures NaiveBst.Elems(Sorted(s)) == NaiveBst.Elems(s)
  {
    SortedKeys(s);
  }

  /** After construction every node is its own auxiliary tree, so depths
      equal to both summaries make the summaries correct. */
  lemma AllMarkedSummarised(t: BinaryTree)
    requires t.Valid()
    requires forall n :: n in t.Repr ==> n.isRoot && n.minDepth == n.depth && n.maxDepth == n.depth
    ensures Summarised(t)
  {
    forall n | n in t.Repr
      ensures Nodes(Sub(t.shape, n)) <= t.Repr &&
        n.minDepth == AuxMin(Sub(t.shape, n), Marked(t)) &&
        n.maxDepth == AuxMax(Sub(t.shape, n), Marked(t))
    {
      Unfold(t, n);
    }
  }

  /** `TangoTree(keys)`: `AttributeError` for no keys; otherwise the keys,
      sorted, are inserted as a perfect tree, insertion is closed, and every
      node is made its own auxiliary tree (black, of black height 1) whose
      depth and summaries are its depth in that tree. Equal keys would make
      `insert` run forever, so the keys must differ. */
  method New(keys: seq<int>) returns (r: Outcome<TangoTree>)
    requires NoRepeats(keys)
    ensures keys == [] <==> r == Raise(AttributeError)
    ensures r.Ok? ==> fresh(r.value) && fresh(r.value.tree) && r.value.Built(NaiveBst.Elems(keys))
  {
    if keys == [] {
      return Raise(AttributeError);
    }
    var tt := new TangoTree();
    SortedIncreasing(keys);
    ElemsSorted(keys);
    tt.Build(Sorted(keys));
    return Ok(tt);
  }
}
