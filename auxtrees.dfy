/// The auxiliary trees of a Tango tree, read off a shape. The marked nodes
/// `M` (those whose `is_root` flag is set) cut the shape into pieces: the
/// auxiliary tree of a marked node is the part of its subtree reachable from
/// it without entering another marked node. `min_depth` and `max_depth`
/// summarise the perfect-tree depths found in such a part.
module AuxTrees {
  import opened BinTree
  import opened Rotation

  /** The subtree `c` continues the auxiliary tree of its parent: it is not
      empty and its top is not marked (`not is_root_or_None`). */
  ghost predicate Joined(c: Tree, M: set<Node>)
  {
    c.Br? && c.node !in M
  }

  /** The nodes of `t` that belong to the auxiliary tree of its top. */
  ghost function AuxPart(t: Tree, M: set<Node>): set<Node>
  {
    match t
    case Nil => {}
    case Br(l, n, r) =>
      {n} + (if Joined(l, M) then AuxPart(l, M) else {}) + (if Joined(r, M) then AuxPart(r, M) else {})
  }

  /** The nearest marked node on the way from the top of `t` down to `x`,
      `x` included; `above` when the way has none. */
  ghost function MarkedAbove(t: Tree, x: Node, M: set<Node>, above: Node?): Node?
  {
    match t
    case Nil => above
    case Br(l, n, r) =>
      var a := if n in M then n else above;
      if n == x then a else if x in Nodes(l) then MarkedAbove(l, x, M, a) else MarkedAbove(r, x, M, a)
  }

  /** The root of the auxiliary tree holding `x`: its nearest marked
      ancestor (or `x` itself), and the top of `t` when there is none. */
  ghost function AuxRoot(t: Tree, x: Node, M: set<Node>): Node?
  {
    var a := MarkedAbove(t, x, M, null);
    if a == null then Top(t) else a
  }

  /** The nodes of the auxiliary tree holding `x`. */
  ghost function AuxTree(t: Tree, x: Node, M: set<Node>): set<Node>
  {
    var a := AuxRoot(t, x, M);
    if a == null then {} else AuxPart(Sub(t, a), M)
  }

  function Min(a: int, b: int): int
  {
    if a <= b then a else b
  }

  function Max(a: int, b: int): int
  {
    if a <= b then b else a
  }

  /** The least perfect-tree depth in the auxiliary part of `t`, folded the
      way `_update_depths` folds it: own depth, then a continuing left
      child, then a continuing right child. */
  ghost function AuxMin(t: Tree, M: set<Node>): int
    reads Nodes(t)`depth
  {
    match t
    case Nil => 0
    case Br(l, n, r) =>
      var a := if Joined(l, M) then Min(n.depth, AuxMin(l, M)) else n.depth;
      if Joined(r, M) then Min(a, AuxMin(r, M)) else a
  }

  /** The greatest perfect-tree depth in the auxiliary part of `t`. */
  ghost function AuxMax(t: Tree, M: set<Node>): int
    reads Nodes(t)`depth
  {
    match t
    case Nil => 0
    case Br(l, n, r) =>
      var a := if Joined(l, M) then Max(n.depth, AuxMax(l, M)) else n.depth;
      if Joined(r, M) then Max(a, AuxMax(r, M)) else a
  }

  // ---------------------------------------------------------------------
  // The summaries are the extremes of the part

  /** `AuxMin` and `AuxMax` are the least and the greatest depth of a node of
      the auxiliary part, and both are attained. */
  lemma {:induction false} AuxExtremes(t: Tree, M: set<Node>)
    requires t.Br?
    ensures forall n :: n in AuxPart(t, M) ==> AuxMin(t, M) <= n.depth <= AuxMax(t, M)
    ensures exists n :: n in AuxPart(t, M) && n.depth == AuxMin(t, M)
    ensures exists n :: n in AuxPart(t, M) && n.depth == AuxMax(t, M)
  {
    var l, n, r := t.left, t.node, t.right;
    if Joined(l, M) {
      AuxExtremes(l, M);
    }
    if Joined(r, M) {
      AuxExtremes(r, M);
    }
  }

  // ---------------------------------------------------------------------
  // Membership

  lemma {:induction false} AuxPartNodes(t: Tree, M: set<Node>)
    ensures AuxPart(t, M) <= Nodes(t)
    ensures t.Br? ==> t.node in AuxPart(t, M)
  {
    match t
    case Nil =>
    case Br(l, n, r) =>
      AuxPartNodes(l, M);
      AuxPartNodes(r, M);
  }

  /** The auxiliary part below a member of the part stays in the part. */
  lemma {:induction false} AuxPartSub(t: Tree, p: Node, M: set<Node>)
    requires Distinct(t) && p in AuxPart(t, M)
    ensures AuxPart(Sub(t, p), M) <= AuxPart(t, M)
  {
    match t
    case Br(l, n, r) =>
      AuxPartNodes(l, M);
      AuxPartNodes(r, M);
      if p != n {
        if p in AuxPart(l, M) && Joined(l, M) {
          AuxPartSub(l, p, M);
        } else {
          AuxPartSub(r, p, M);
        }
      }
  }

  /** A node of the part below a member `p` of the part is in `p`'s part:
      the way down to it passes `p` and enters no marked node. */
  lemma {:induction false} AuxPartInside(t: Tree, p: Node, n: Node, M: set<Node>)
    requires Distinct(t) && p in AuxPart(t, M) && n in AuxPart(t, M) && n in Nodes(Sub(t, p))
    ensures n in AuxPart(Sub(t, p), M)
  {
    match t
    case Br(l, x, r) =>
      AuxPartNodes(l, M);
      AuxPartNodes(r, M);
      if p != x {
        if p in Nodes(l) {
          SubFacts(l, p);
          AuxPartInside(l, p, n, M);
        } else {
          SubFacts(r, p);
          AuxPartInside(r, p, n, M);
        }
      }
  }

  /** In a search tree, a node whose key lies between two keys of the
      subtree of `p` is itself in that subtree. */
  lemma {:induction false} BetweenInSub(t: Tree, p: Node, a: Node, b: Node, n: Node)
    requires IsBst(t) && p in Nodes(t) && a in Nodes(Sub(t, p)) && b in Nodes(Sub(t, p)) && n in Nodes(t)
    requires a.key < n.key < b.key
    ensures n in Nodes(Sub(t, p))
  {
    match t
    case Br(l, x, r) =>
      BstParts(t);
      BstDistinct(t);
      if p != x {
        if p in Nodes(l) {
          SubFacts(l, p);
          if n in Nodes(l) {
            BetweenInSub(l, p, a, b, n);
          }
        } else {
          SubFacts(r, p);
          if n in Nodes(r) {
            BetweenInSub(r, p, a, b, n);
          }
        }
      }
  }

  // ---------------------------------------------------------------------
  // The auxiliary root

  /** What the walk down to `x` reports: either nothing marked on the way,
      and then `x` is in the part of the top; or a marked node of `t` whose
      part holds `x`. */
  lemma {:induction false} MarkedAboveFacts(t: Tree, x: Node, M: set<Node>, above: Node?)
    requires Distinct(t) && x in Nodes(t) && (above == null || above !in Nodes(t))
    ensures var a := MarkedAbove(t, x, M, above);
      (a == above && x in AuxPart(t, M) && t.node !in M) ||
      (a != null && a in Nodes(t) && a in M && a != above && x in AuxPart(Sub(t, a), M))
  {
    match t
    case Br(l, n, r) =>
      AuxPartNodes(l, M);
      AuxPartNodes(r, M);
      var a := if n in M then n else above;
      if n != x {
        if x in Nodes(l) {
          MarkedAboveFacts(l, x, M, a);
          if l.node in M && MarkedAbove(l, x, M, a) == a {
            assert false;
          }
        } else {
          MarkedAboveFacts(r, x, M, a);
          if r.node in M && MarkedAbove(r, x, M, a) == a {
            assert false;
          }
        }
      }
  }

  /** The auxiliary root of `x` is a node of `t` above `x` whose part holds
      `x`; it is marked unless it is the top; and a marked `x` is its own
      root. */
  lemma AuxRootFacts(t: Tree, x: Node, M: set<Node>)
    requires Distinct(t) && x in Nodes(t)
    ensures var a := AuxRoot(t, x, M);
      a != null && a in Nodes(t) && x in Nodes(Sub(t, a)) && x in AuxPart(Sub(t, a), M) &&
      x in AuxTree(t, x, M) && (a in M || a == Top(t))
    ensures x in M ==> AuxRoot(t, x, M) == x
  {
    MarkedAboveFacts(t, x, M, null);
    var a := AuxRoot(t, x, M);
    SubFacts(t, a);
    AuxPartNodes(Sub(t, a), M);
    if x in M {
      MarkedSelf(t, x, M, null);
    }
  }

  lemma {:induction false} MarkedSelf(t: Tree, x: Node, M: set<Node>, above: Node?)
    requires x in Nodes(t) && x in M
    ensures MarkedAbove(t, x, M, above) == x
  {
    match t
    case Br(l, n, r) =>
      var a := if n in M then n else above;
      if n != x {
        if x in Nodes(l) {
          MarkedSelf(l, x, M, a);
        } else {
          MarkedSelf(r, x, M, a);
        }
      }
  }

  /** An unmarked node belongs to the auxiliary tree of its parent. */
  lemma {:induction false} MarkedAboveStep(t: Tree, x: Node, M: set<Node>, above: Node?, par: Node?)
    requires Distinct(t) && x in Nodes(t) && x != Top(t) && x !in M
    ensures ParentIn(t, x, par) != null
    ensures MarkedAbove(t, x, M, above) == MarkedAbove(t, ParentIn(t, x, par), M, above)
  {
    match t
    case Br(l, n, r) =>
      var a := if n in M then n else above;
      if x in Nodes(l) {
        if x == l.node {
        } else {
          MarkedAboveStep(l, x, M, a, n);
          ParentFacts(l, n, x);
        }
      } else {
        if x == r.node {
        } else {
          MarkedAboveStep(r, x, M, a, n);
          ParentFacts(r, n, x);
        }
      }
  }

  /** An unmarked node has the auxiliary root of its parent. */
  lemma AuxRootStep(t: Tree, x: Node, M: set<Node>)
    requires Distinct(t) && x in Nodes(t) && x != Top(t) && x !in M
    ensures ParentIn(t, x, null) != null
    ensures AuxRoot(t, x, M) == AuxRoot(t, ParentIn(t, x, null), M)
  {
    MarkedAboveStep(t, x, M, null, null);
  }

  /** An unmarked top has no marked node above it: it is its own root. */
  lemma AuxRootTop(t: Tree, M: set<Node>)
    requires t.Br? && t.node !in M
    ensures AuxRoot(t, t.node, M) == t.node
  {
  }

  // ---------------------------------------------------------------------
  // Rotations

  /** The marks after `TangoNode.rotate` of `x` with its parent `q`: the two
      exchange their flags and nothing else changes. */
  ghost function Swapped(M: set<Node>, x: Node, q: Node): set<Node>
  {
    (M - {x, q}) + (if q in M then {x} else {}) + (if x in M then {q} else {})
  }

  /** The number of members of `S`, counted one at a time. Unlike `|S|`
      it is unfolded only on demand. */
  ghost function Count(S: set<Node>): nat
  {
    if S == {} then 0 else var x :| x in S; 1 + Count(S - {x})
  }

  lemma {:induction false} CountCard(S: set<Node>)
    ensures Count(S) == |S|
    decreases |S|
  {
    if S != {} {
      var x :| x in S && Count(S) == 1 + Count(S - {x});
      CountCard(S - {x});
    }
  }

  /** Setting or clearing one flag changes the count by at most one. */
  lemma CountOne(M: set<Node>, p: Node)
    ensures Count(M) <= Count(M + {p}) <= Count(M) + 1
    ensures Count(M) - 1 <= Count(M - {p}) <= Count(M)
  {
    CountCard(M);
    CountCard(M + {p});
    CountCard(M - {p});
    if p in M {
      assert M + {p} == M;
      assert |M - {p}| == |M| - 1;
    } else {
      assert M - {p} == M;
    }
  }

  /** Exchanging two flags keeps the number of marked nodes. */
  lemma SwappedCard(M: set<Node>, x: Node, q: Node)
    ensures |Swapped(M, x, q)| == |M|
  {
    var S := Swapped(M, x, q);
    if x != q && x in M && q !in M {
      assert S == (M - {x}) + {q};
      Moved(M, x, q);
    } else if x != q && q in M && x !in M {
      assert S == (M - {q}) + {x};
      Moved(M, q, x);
    } else {
      assert forall n :: n in S <==> n in M;
      assert S == M;
    }
  }


  /** `SwappedCard` for `Count`. */
  lemma CountSwapped(M: set<Node>, x: Node, q: Node)
    ensures Count(Swapped(M, x, q)) == Count(M)
  {
    SwappedCard(M, x, q);
    CountCard(M);
    CountCard(Swapped(M, x, q));
  }

  /** Moving one member of a set to a node outside it keeps its size. */
  lemma Moved(M: set<Node>, a: Node, b: Node)
    requires a in M && b !in M
    ensures |(M - {a}) + {b}| == |M|
  {
    var R := M - {a};
    assert |R| == |M| - 1;
    assert b !in R;
  }


  /** Marks that agree on the nodes of `t` give the same part and the same
      summaries. */
  lemma {:induction false} AuxAgree(t: Tree, M: set<Node>, M': set<Node>)
    requires forall n :: n in Nodes(t) ==> (n in M <==> n in M')
    ensures AuxPart(t, M) == AuxPart(t, M') && AuxMin(t, M) == AuxMin(t, M') && AuxMax(t, M) == AuxMax(t, M')
  {
    match t
    case Nil =>
    case Br(l, n, r) =>
      AuxAgree(l, M, M');
      AuxAgree(r, M, M');
  }

  /** Below its top, the parent of a node does not depend on the parent the
      top is given. */
  lemma {:induction false} ParentBelowTop(t: Tree, x: Node, a: Node?, b: Node?)
    requires Distinct(t) && x in Nodes(t) && x != Top(t)
    ensures ParentIn(t, x, a) == ParentIn(t, x, b)
  {
    match t
    case Br(l, n, r) =>
      if x in Nodes(l) && x != l.node {
        ParentBelowTop(l, x, n, n);
      }
  }

  /** Rotating `x` with its parent `q` inside `t` while the two exchange
      their marks keeps whether the top is marked; and unless the top is a
      marked `q`, it keeps the summaries of all of `t`, provided a marked
      `x` has a marked parent. */
  lemma {:induction false} RotateAuxWhole(t: Tree, x: Node, q: Node, M: set<Node>)
    requires Distinct(t) && x in Nodes(t) && x != Top(t) && q == ParentIn(t, x, null)
    requires x in M ==> q in M
    ensures var t', M' := RotateUp(t, x), Swapped(M, x, q);
      t'.Br? && (t'.node in M' <==> t.node in M) &&
      (q != t.node || q !in M ==> AuxMin(t', M') == AuxMin(t, M) && AuxMax(t', M') == AuxMax(t, M))
  {
    var M' := Swapped(M, x, q);
    match t
    case Br(l, n, r) =>
      if l.Br? && l.node == x {
        RotateAuxTopLeft(t, M);
      } else if r.Br? && r.node == x {
        RotateAuxTopRight(t, M);
      } else if x in Nodes(l) {
        ParentBelowTop(l, x, n, null);
        ParentFacts(l, n, x);
        RotateAuxWhole(l, x, q, M);
        AuxAgree(r, M, M');
      } else {
        ParentBelowTop(r, x, n, null);
        ParentFacts(r, n, x);
        RotateAuxWhole(r, x, q, M);
        AuxAgree(l, M, M');
      }
  }

  /** `RotateAuxWhole` when `x` is the left child of the top. */
  lemma RotateAuxTopLeft(t: Tree, M: set<Node>)
    requires t.Br? && t.left.Br? && Distinct(t) && (t.left.node in M ==> t.node in M)
    ensures var x, q := t.left.node, t.node;
      var t', M' := Br(t.left.left, x, Br(t.left.right, q, t.right)), Swapped(M, x, q);
      RotateUp(t, x) == t' && (x in M' <==> q in M) &&
      (q !in M ==> AuxMin(t', M') == AuxMin(t, M) && AuxMax(t', M') == AuxMax(t, M))
  {
    var x, q := t.left.node, t.node;
    var M' := Swapped(M, x, q);
    if q !in M {
      assert M' == M;
    }
  }

  /** `RotateAuxWhole` when `x` is the right child of the top. */
  lemma RotateAuxTopRight(t: Tree, M: set<Node>)
    requires t.Br? && t.right.Br? && Distinct(t) && (t.right.node in M ==> t.node in M)
    ensures var x, q := t.right.node, t.node;
      var t', M' := Br(Br(t.left, q, t.right.left), x, t.right.right), Swapped(M, x, q);
      RotateUp(t, x) == t' && (x in M' <==> q in M) &&
      (q !in M ==> AuxMin(t', M') == AuxMin(t, M) && AuxMax(t', M') == AuxMax(t, M))
  {
    var x, q := t.right.node, t.node;
    var M' := Swapped(M, x, q);
    if q !in M {
      assert M' == M;
    }
  }

  /** Seen from a node `n` other than `x` and its parent `q`, a rotation of
      `x` either happens inside the subtree of `n` or leaves it alone. */
  lemma {:induction false} SubRotate(t: Tree, x: Node, q: Node, n: Node)
    requires Distinct(t) && x in Nodes(t) && x != Top(t) && q == ParentIn(t, x, null)
    requires n in Nodes(t) && n != x && n != q
    ensures var S := Sub(t, n);
      (x in Nodes(S) && x != Top(S) && q == ParentIn(S, x, null) && Sub(RotateUp(t, x), n) == RotateUp(S, x)) ||
      (x !in Nodes(S) && q !in Nodes(S) && Sub(RotateUp(t, x), n) == S)
  {
    SubFacts(t, n);
    match t
    case Br(l, m, r) =>
      if n == m {
      } else if n in Nodes(l) {
        SubFacts(l, n);
        if x in Nodes(l) && x != l.node {
          ParentBelowTop(l, x, m, null);
          RotateNodes(l, x);
          SubRotate(l, x, q, n);
        } else if x == l.node {
          if n in Nodes(l.left) {
            SubFacts(l.left, n);
            assert Sub(l, n) == Sub(l.left, n);
          } else {
            SubFacts(l.right, n);
            assert Sub(l, n) == Sub(l.right, n);
          }
        } else if x != r.node {
          ParentFacts(r, m, x);
          RotateNodes(r, x);
        }
      } else {
        SubFacts(r, n);
        if x in Nodes(r) && x != r.node {
          ParentBelowTop(r, x, m, null);
          RotateNodes(r, x);
          SubRotate(r, x, q, n);
        } else if x == r.node {
          if n in Nodes(r.left) {
            SubFacts(r.left, n);
            assert Sub(r, n) == Sub(r.left, n);
          } else {
            SubFacts(r.right, n);
            assert Sub(r, n) == Sub(r.right, n);
          }
        } else if x != l.node {
          ParentFacts(l, m, x);
          RotateNodes(l, x);
        } else {
          assert n !in Nodes(l.left) && n !in Nodes(l.right);
        }
      }
  }

  /** A rotation with exchanged marks keeps the summaries every node other
      than `x` and its parent `q` has of its subtree, provided a marked `x`
      has a marked parent. */
  lemma RotateAuxAt(t: Tree, x: Node, q: Node, M: set<Node>, n: Node)
    requires Distinct(t) && x in Nodes(t) && x != Top(t) && q == ParentIn(t, x, null)
    requires x in M ==> q in M
    requires n in Nodes(t) && n != x && n != q
    ensures var t', M' := RotateUp(t, x), Swapped(M, x, q);
      AuxMin(Sub(t', n), M') == AuxMin(Sub(t, n), M) && AuxMax(Sub(t', n), M') == AuxMax(Sub(t, n), M)
  {
    SubRotate(t, x, q, n);
    var S := Sub(t, n);
    SubFacts(t, n);
    if x in Nodes(S) {
      RotateAuxWhole(S, x, q, M);
    } else {
      AuxAgree(S, M, Swapped(M, x, q));
    }
  }

  // ---------------------------------------------------------------------
  // Moving one mark

  /** A node below a marked node other than the top is outside the
      auxiliary part of the top. */
  lemma {:induction false} BelowMark(t: Tree, m: Node, x: Node, M: set<Node>)
    requires Distinct(t) && m in Nodes(t) && m != Top(t) && m in M && x in Nodes(Sub(t, m))
    ensures x !in AuxPart(t, M)
  {
    match t
    case Br(l, n, r) =>
      AuxPartNodes(l, M);
      AuxPartNodes(r, M);
      if m in Nodes(l) {
        SubFacts(l, m);
        if m != l.node {
          BelowMark(l, m, x, M);
        }
      } else {
        SubFacts(r, m);
        if m != r.node {
          BelowMark(r, m, x, M);
        }
      }
  }

  /** Marks that differ at most at `p` give the same part and the same
      summaries when `p` is the top or lies in neither part. */
  lemma {:induction false} MarkElsewhere(t: Tree, p: Node, M: set<Node>, M': set<Node>)
    requires Distinct(t)
    requires forall n :: n in Nodes(t) && n != p ==> (n in M <==> n in M')
    requires p == Top(t) || (p !in AuxPart(t, M) && p !in AuxPart(t, M'))
    ensures AuxPart(t, M) == AuxPart(t, M') && AuxMin(t, M) == AuxMin(t, M') && AuxMax(t, M) == AuxMax(t, M')
    decreases t, 0
  {
    match t
    case Nil =>
    case Br(l, n, r) =>
      if p == n {
        AuxAgree(l, M, M');
        AuxAgree(r, M, M');
      } else {
        MarkElsewhereSide(l, p, M, M', AuxPart(t, M), AuxPart(t, M'));
        MarkElsewhereSide(r, p, M, M', AuxPart(t, M), AuxPart(t, M'));
      }
  }

  /** One side of `MarkElsewhere`: `c` is a child whose continued part would
      lie inside the parts `P` and `P'` that do not hold `p`. */
  lemma {:induction false} MarkElsewhereSide(c: Tree, p: Node, M: set<Node>, M': set<Node>, P: set<Node>, P': set<Node>)
    requires Distinct(c)
    requires forall n :: n in Nodes(c) && n != p ==> (n in M <==> n in M')
    requires p !in P && p !in P'
    requires Joined(c, M) ==> AuxPart(c, M) <= P
    requires Joined(c, M') ==> AuxPart(c, M') <= P'
    ensures Joined(c, M) == Joined(c, M')
    ensures Joined(c, M) ==> AuxPart(c, M) == AuxPart(c, M') && AuxMin(c, M) == AuxMin(c, M') && AuxMax(c, M) == AuxMax(c, M')
    decreases c, 1
  {
    AuxPartNodes(c, M);
    AuxPartNodes(c, M');
    if p !in Nodes(c) {
      AuxAgree(c, M, M');
    } else if Joined(c, M) && Joined(c, M') {
      MarkElsewhere(c, p, M, M');
    }
  }
}
