/// The one local edit every tree of the repository is built from: rotating a
/// node with its parent (`RBNode.rotate` in rb.py and the primitive part of
/// `TangoNode.rotate`).
///
/// `RotateUp` is the effect on the shape, `Rewire` the effect on the pointer
/// fields, and `Rotate` the in-place method whose new state is tied to both.
module Rotation {
  import opened BinTree

  /** The shape after rotating `x` with its parent; unchanged when `x` is the
      top of the shape or not in it. */
  ghost function RotateUp(t: Tree, x: Node): Tree
  {
    match t
    case Nil => Nil
    case Br(l, n, r) =>
      if l.Br? && l.node == x then Br(l.left, x, Br(l.right, n, r))
      else if r.Br? && r.node == x then Br(Br(l, n, r.left), x, r.right)
      else if x in Nodes(l) then Br(RotateUp(l, x), n, r)
      else if x in Nodes(r) then Br(l, n, RotateUp(r, x))
      else t
  }

  /** The pointer fields after the rotation of `x`, read from the fields `m`
      before it: the grandparent's child slot, the inner child that changes
      sides, `x` itself and its old parent. */
  ghost function Rewire(m: map<Node, Links>, x: Node): map<Node, Links>
  {
    if x !in m || m[x].parent == null || m[x].parent !in m then m else
    var p := m[x].parent;
    var g := m[p].parent;
    var onLeft := m[p].left == x;
    var onRight := !onLeft && m[p].right == x;
    var b := if onLeft then m[x].right else if onRight then m[x].left else null;
    var m1 := if g != null && g in m then
      m[g := if m[g].left == p then m[g].(left := x) else if m[g].right == p then m[g].(right := x) else m[g]]
      else m;
    var m2 := if b != null && b in m then m1[b := m[b].(parent := p)] else m1;
    m2[p := Links(x, if onLeft then b else m[p].left, if onRight then b else m[p].right,
                  if g == null then null else m[p].tree)]
      [x := Links(g, if onRight then p else m[x].left, if onLeft then p else m[x].right,
                  if g == null then m[p].tree else m[x].tree)]
  }

  /** A rotation rewrites the fields of nodes it already knows, and no others. */
  lemma RewireKeys(m: map<Node, Links>, x: Node)
    ensures Rewire(m, x).Keys == m.Keys
  {
  }

  // ---------------------------------------------------------------------
  // What a rotation does to the shape

  /** Rotations keep the in-order sequence: the search order is untouched. */
  lemma {:induction false} RotateInOrder(t: Tree, x: Node)
    ensures InOrder(RotateUp(t, x)) == InOrder(t)
  {
    match t
    case Nil =>
    case Br(l, n, r) =>
      if l.Br? && l.node == x {
        assert InOrder(t) == InOrder(l.left) + [x] + (InOrder(l.right) + [n] + InOrder(r));
      } else if r.Br? && r.node == x {
        assert InOrder(t) == (InOrder(l) + [n] + InOrder(r.left)) + [x] + InOrder(r.right);
      } else if x in Nodes(l) {
        RotateInOrder(l, x);
      } else if x in Nodes(r) {
        RotateInOrder(r, x);
      }
  }

  /** Rotations keep the node set, its size and the absence of repeats. */
  lemma {:induction false} RotateNodes(t: Tree, x: Node)
    requires Distinct(t)
    ensures Nodes(RotateUp(t, x)) == Nodes(t)
    ensures Size(RotateUp(t, x)) == Size(t)
    ensures Distinct(RotateUp(t, x))
  {
    match t
    case Nil =>
    case Br(l, n, r) =>
      if l.Br? && l.node == x {
      } else if r.Br? && r.node == x {
      } else if x in Nodes(l) {
        RotateNodes(l, x);
      } else if x in Nodes(r) {
        RotateNodes(r, x);
      }
  }

  /** `x` takes the place of the top exactly when its parent was the top. */
  lemma {:induction false} RotateTop(t: Tree, par: Node?, x: Node)
    requires Distinct(t) && x in Nodes(t)
    ensures Top(RotateUp(t, x)) ==
      if x != Top(t) && ParentIn(t, x, par) == Top(t) then x else Top(t)
  {
    match t
    case Br(l, n, r) =>
      if l.Br? && l.node == x {
      } else if r.Br? && r.node == x {
      } else if x in Nodes(l) {
        SubFacts(l, x);
        ParentFacts(l, n, x);
      } else if x in Nodes(r) {
        ParentFacts(r, n, x);
      }
  }

  /** Rotating the top changes nothing. */
  lemma {:induction false} RotateAtTop(t: Tree)
    requires t.Br? && Distinct(t)
    ensures RotateUp(t, t.node) == t
  {
  }

  /** A rotation lifts `x` one level, and with it the child on its far side. */
  lemma {:induction false} RotateDepth(t: Tree, x: Node)
    requires Distinct(t) && x in Nodes(t) && x != Top(t)
    ensures x in Nodes(RotateUp(t, x)) && Sub(t, x).Br? && Sub(t, x).node == x
    ensures Depth(RotateUp(t, x), x) + 1 == Depth(t, x)
    ensures var p := ParentIn(t, x, null);
      p in Nodes(t) && Sub(t, p).Br? &&
      (Top(Sub(t, p).left) == x ==> Sub(RotateUp(t, x), x) == Br(Sub(t, x).left, x, Br(Sub(t, x).right, p, Sub(t, p).right))) &&
      (Top(Sub(t, p).left) != x ==> Sub(RotateUp(t, x), x) == Br(Br(Sub(t, p).left, p, Sub(t, x).left), x, Sub(t, x).right))
  {
    match t
    case Br(l, n, r) =>
      RotateNodes(t, x);
      if l.Br? && l.node == x {
      } else if r.Br? && r.node == x {
        assert x !in Nodes(l);
      } else if x in Nodes(l) {
        SubFacts(l, x);
        RotateDepth(l, x);
        RotateNodes(l, x);
      } else {
        RotateDepth(r, x);
        RotateNodes(r, x);
      }
  }

  // ---------------------------------------------------------------------
  // The pointer fields follow the shape

  /** A subtree whose top moved under a new parent is still linked. */
  lemma {:induction false} LinkedReparent(m: map<Node, Links>, m': map<Node, Links>, t: Tree,
                                          par: Node, par': Node, owner: BinaryTree?)
    requires Linked(m, t, par, owner) && Distinct(t)
    requires t.Br? ==> t.node in m' && m'[t.node] == m[t.node].(parent := par')
    requires forall n :: n in Nodes(t) && n != Top(t) ==> n in m && n in m' && m'[n] == m[n]
    ensures Linked(m', t, par', owner)
  {
    match t
    case Nil =>
    case Br(l, n, r) =>
      LinkedFrame(m, m', l, n, owner);
      LinkedFrame(m, m', r, n, owner);
  }

  /** `Rewire` turns pointer fields that follow `t` into fields that follow
      `RotateUp(t, x)`, whatever lies above `t`. */
  lemma {:induction false} RotateLinked(m: map<Node, Links>, t: Tree, par: Node?, owner: BinaryTree?, x: Node)
    requires Linked(m, t, par, owner) && Distinct(t)
    requires x in Nodes(t) && x != Top(t) && par !in Nodes(t)
    ensures Linked(Rewire(m, x), RotateUp(t, x), par, owner)
    decreases t, 1
  {
    match t
    case Br(l, n, r) =>
      if l.Br? && l.node == x {
        RotateLinkedLeft(m, t, par, owner);
      } else if r.Br? && r.node == x {
        RotateLinkedRight(m, t, par, owner);
      } else if x in Nodes(l) {
        RotateLinkedInLeft(m, t, par, owner, x);
      } else {
        RotateLinkedInRight(m, t, par, owner, x);
      }
  }

  /** `RotateLinked` when `x` lies deeper in the left subtree of the top. */
  lemma {:induction false} RotateLinkedInLeft(m: map<Node, Links>, t: Tree, par: Node?, owner: BinaryTree?, x: Node)
    requires Linked(m, t, par, owner) && Distinct(t) && t.Br? && par !in Nodes(t)
    requires x in Nodes(t.left) && x != Top(t.left)
    ensures Linked(Rewire(m, x), RotateUp(t, x), par, owner)
    decreases t, 0
  {
    var l, n, r := t.left, t.node, t.right;
    RotateLinked(m, l, n, owner, x);
    RotateTop(l, n, x);
    RotateParentWithin(m, l, n, owner, x);
    LinkedDomain(m, r, n, owner);
    LinkedFrame(m, Rewire(m, x), r, n, owner);
  }

  /** `RotateLinked` when `x` lies deeper in the right subtree of the top. */
  lemma {:induction false} RotateLinkedInRight(m: map<Node, Links>, t: Tree, par: Node?, owner: BinaryTree?, x: Node)
    requires Linked(m, t, par, owner) && Distinct(t) && t.Br? && par !in Nodes(t)
    requires x in Nodes(t.right) && x != Top(t.right)
    ensures Linked(Rewire(m, x), RotateUp(t, x), par, owner)
    decreases t, 0
  {
    var l, n, r := t.left, t.node, t.right;
    RotateLinked(m, r, n, owner, x);
    RotateTop(r, n, x);
    RotateParentWithin(m, r, n, owner, x);
    LinkedDomain(m, l, n, owner);
    LinkedFrame(m, Rewire(m, x), l, n, owner);
  }

  /** `RotateLinked` when `x` is the left child of the top. */
  lemma {:induction false} RotateLinkedLeft(m: map<Node, Links>, t: Tree, par: Node?, owner: BinaryTree?)
    requires Linked(m, t, par, owner) && Distinct(t)
    requires t.Br? && t.left.Br? && par !in Nodes(t)
    ensures Linked(Rewire(m, t.left.node), RotateUp(t, t.left.node), par, owner)
  {
    var l, n, r := t.left, t.node, t.right;
    var x := l.node;
    var m' := Rewire(m, x);
    assert m[n].left == x && m[x].parent == n;
    LinkedDomain(m, t, par, owner);
    LinkedFrame(m, m', l.left, x, owner);
    LinkedReparent(m, m', l.right, x, n, owner);
    LinkedFrame(m, m', r, n, owner);
  }

  /** `RotateLinked` when `x` is the right child of the top. */
  lemma {:induction false} RotateLinkedRight(m: map<Node, Links>, t: Tree, par: Node?, owner: BinaryTree?)
    requires Linked(m, t, par, owner) && Distinct(t)
    requires t.Br? && t.right.Br? && par !in Nodes(t)
    ensures Linked(Rewire(m, t.right.node), RotateUp(t, t.right.node), par, owner)
  {
    var l, n, r := t.left, t.node, t.right;
    var x := r.node;
    var m' := Rewire(m, x);
    assert m[n].left != x && m[n].right == x && m[x].parent == n;
    assert x in Nodes(r) && (r.left.Br? ==> r.left.node in Nodes(r));
    LinkedDomain(m, t, par, owner);
    LinkedReparent(m, m', r.left, x, n, owner);
    LinkedFrame(m, m', l, n, owner);
    LinkedFrame(m, m', r.right, x, owner);
  }

  /** Which nodes `Rewire` touches when `x` sits strictly inside `t`: all of
      them lie in `t`, except the grandparent, which is `par` when the parent
      is the top of `t`. */
  lemma {:induction false} RotateParentWithin(m: map<Node, Links>, t: Tree, par: Node?, owner: BinaryTree?, x: Node)
    requires Linked(m, t, par, owner) && Distinct(t)
    requires x in Nodes(t) && x != Top(t) && par !in Nodes(t)
    ensures x in m && m[x].parent != null && m[x].parent in Nodes(t) && m[x].parent in m
    ensures var p := m[x].parent; var g := m[p].parent;
      (p == Top(t) ==> g == par) && (p != Top(t) ==> g != null && g in Nodes(t)) &&
      (m[x].left != null ==> m[x].left in Nodes(t)) && (m[x].right != null ==> m[x].right in Nodes(t))
    ensures par != null && par in m && m[par].left == Top(t) ==>
      Rewire(m, x)[par] == if m[x].parent == Top(t) then m[par].(left := x) else m[par]
    ensures par != null && par in m && m[par].left != Top(t) && m[par].right == Top(t) ==>
      Rewire(m, x)[par] == if m[x].parent == Top(t) then m[par].(right := x) else m[par]
  {
    LinkedAt(m, t, par, owner, x);
    ParentFacts(t, par, x);
    var p := m[x].parent;
    LinkedAt(m, t, par, owner, p);
    ChildFacts(t, par, x);
    ParentNull(t, p);
    if p != Top(t) {
      ParentFacts(t, par, p);
    }
    assert x != par && p != par;
  }

  // ---------------------------------------------------------------------
  // The in-place rotation

  method Rotate(x: Node, ghost t: BinaryTree)
    requires t.Valid() && x in t.Repr
    modifies t, t.Repr`parent, t.Repr`left, t.Repr`right, t.Repr`tree
    ensures t.Valid() && t.Repr == old(t.Repr)
    ensures t.shape == RotateUp(old(t.shape), x)
    ensures t.links == Rewire(old(t.links), x)
    ensures t.root == if old(x.parent) == old(t.root) then x else old(t.root)
  {
    if x.parent == null {
      NodeFacts(t, x);
      RotateAtTop(t.shape);
      return;
    }
    ghost var s := t.shape;
    ghost var m := t.links;
    var p := x.parent;
    RotatePre(t, x);
    ghost var g := p.parent;
    ghost var b := if p.left == x then x.right else if p.right == x then x.left else null;
    Relink(x, p, g, b, t.Repr, m, t);
    RewireKeys(m, x);
    t.shape := RotateUp(s, x);
    t.links := Rewire(m, x);
    RotatePost(t, s, m, x);
  }

  /** `Rotate` on a node with a parent, seen from the pointers of the two
      nodes it swaps: `x` takes its parent's place, the parent hangs below
      `x` on the side `x` came from and adopts `x`'s inner child, and `x`
      keeps its outer child and rises one level. */
  method Lift(x: Node, ghost t: BinaryTree)
    requires t.Valid() && x in t.Repr && x.parent != null
    modifies t, t.Repr`parent, t.Repr`left, t.Repr`right, t.Repr`tree
    ensures t.Valid() && t.Repr == old(t.Repr) && InOrder(t.shape) == old(InOrder(t.shape))
    ensures t.shape == RotateUp(old(t.shape), x) && t.links == Rewire(old(t.links), x)
    ensures x.parent == old(x.parent.parent) && old(x.parent).parent == x
    ensures old(x.parent.left) == x ==>
      x.right == old(x.parent) && x.left == old(x.left) &&
      old(x.parent).left == old(x.right) && old(x.parent).right == old(x.parent.right)
    ensures old(x.parent.left) != x ==>
      x.left == old(x.parent) && x.right == old(x.right) &&
      old(x.parent).right == old(x.left) && old(x.parent).left == old(x.parent.left)
    ensures old(x.parent.parent) != null && old(x.parent.parent.left) == old(x.parent) ==>
      old(x.parent.parent).left == x && old(x.parent.parent).right == old(x.parent.parent.right)
    ensures old(x.parent.parent) != null && old(x.parent.parent.left) != old(x.parent) ==>
      old(x.parent.parent).right == x && old(x.parent.parent).left == old(x.parent.parent.left)
    ensures forall n :: n in t.Repr && n != x && n != old(x.parent) && n != old(x.parent.parent) ==>
      n.left == old(n.left) && n.right == old(n.right)
    ensures Depth(t.shape, x) + 1 == old(Depth(t.shape, x))
    ensures t.root == if old(x.parent.parent) == null then x else old(t.root)
  {
    ghost var s, m := t.shape, t.links;
    ghost var q := x.parent;
    ghost var g := q.parent;
    NodeFacts(t, x);
    RotatePre(t, x);
    NodeFacts(t, q);
    ParentFacts(s, null, x);
    FieldsAt(t, x);
    FieldsAt(t, q);
    if g != null {
      NodeFacts(t, g);
      ParentFacts(s, null, q);
      FieldsAt(t, g);
    }
    RewireAt(m, x);
    RotateDepth(s, x);
    RotateInOrder(s, x);
    assert forall n :: n in t.Repr ==> m[n] == Links(n.parent, n.left, n.right, n.tree);
    Rotate(x, t);
    forall n | n in t.Repr && n != x && n != q && n != g
      ensures n.left == old(n.left) && n.right == old(n.right)
    {
      RewireElse(m, x, n);
      FieldsAt(t, n);
    }
    FieldsAt(t, x);
    FieldsAt(t, q);
    if g != null {
      FieldsAt(t, g);
    }
  }

  /** The recorded fields of a node of a valid tree are its fields. */
  lemma FieldsAt(t: BinaryTree, n: Node)
    requires t.Valid() && n in t.Repr
    ensures t.links[n] == Links(n.parent, n.left, n.right, n.tree)
  {
  }

  /** What `Rewire` records for `x`, its parent `p` and its grandparent `g`. */
  lemma RewireAt(m: map<Node, Links>, x: Node)
    requires x in m && m[x].parent != null && m[x].parent in m && m[x].parent != x
    requires var p := m[x].parent; m[p].left == x || m[p].right == x
    requires var p := m[x].parent; var g := m[p].parent;
      g != null ==> g in m && g != x && g != p && (m[g].left == p || m[g].right == p)
    requires var p := m[x].parent; var g := m[p].parent;
      var b := if m[p].left == x then m[x].right else m[x].left;
      b != null ==> b != x && b != p && b != g
    ensures var p := m[x].parent; var g := m[p].parent; var r := Rewire(m, x);
      r[x].parent == g && r[p].parent == x &&
      (m[p].left == x ==> r[x].right == p && r[x].left == m[x].left && r[p].left == m[x].right && r[p].right == m[p].right) &&
      (m[p].left != x ==> r[x].left == p && r[x].right == m[x].right && r[p].right == m[x].left && r[p].left == m[p].left) &&
      (g != null && m[g].left == p ==> r[g].left == x && r[g].right == m[g].right) &&
      (g != null && m[g].left != p ==> r[g].right == x && r[g].left == m[g].left)
  {
  }

  /** A rotation leaves the child fields of every node but `x`, its parent
      and its grandparent as they were. */
  lemma RewireElse(m: map<Node, Links>, x: Node, n: Node)
    requires x in m && m[x].parent != null && m[x].parent in m && n in m
    requires n != x && n != m[x].parent && n != m[m[x].parent].parent
    ensures Rewire(m, x)[n].left == m[n].left && Rewire(m, x)[n].right == m[n].right
  {
  }

  /** The nodes a rotation of `x` touches are distinct members of the tree. */
  lemma RotatePre(t: BinaryTree, x: Node)
    requires t.Valid() && x in t.Repr && x.parent != null
    ensures x.parent in t.Repr && x.parent != x && t.links[x].parent == x.parent
    ensures x.parent.parent != null ==> x.parent.parent in t.Repr && x.parent.parent != x && x.parent.parent != x.parent
    ensures x.parent.parent == null ==> x.parent.tree == t && x.parent == t.root
    ensures x.left != null ==> x.left in t.Repr && x.left != x && x.left != x.parent && x.left != x.parent.parent
    ensures x.right != null ==> x.right in t.Repr && x.right != x && x.right != x.parent && x.right != x.parent.parent
  {
    NodeFacts(t, x);
    var p := x.parent;
    NodeFacts(t, p);
    ChildFacts(t.shape, null, x);
    ParentFacts(t.shape, null, x);
    if p.parent != null {
      ParentFacts(t.shape, null, p);
    }
  }

  /** After the pointer writes the tree is valid again, with the rotated shape. */
  lemma RotatePost(t: BinaryTree, s: Tree, m: map<Node, Links>, x: Node)
    requires Shaped(s, m, t, t.Repr)
    requires x in Nodes(s) && x != Top(s) && m[x].parent != null && m[x].parent in m
    requires t.shape == RotateUp(s, x) && t.links == Rewire(m, x) && Rewire(m, x).Keys == m.Keys
    requires forall n :: n in t.Repr ==> Rewire(m, x)[n] == Links(n.parent, n.left, n.right, n.tree)
    requires t.root == if m[m[x].parent].parent == null then x else Top(s)
    ensures t.Valid()
  {
    RewireKeys(m, x);
    RotateLinked(m, s, null, t, x);
    RotateNodes(s, x);
    RotateInOrder(s, x);
    RotateTop(s, null, x);
    LinkedAt(m, s, null, t, x);
    ParentFacts(s, null, x);
    var p := m[x].parent;
    LinkedAt(m, s, null, t, p);
    ParentNull(s, p);
  }

  /** The pointer writes of a rotation, with their effect on the recorded
      fields `m` of the nodes `S`: they now hold `Rewire(m, x)`. */
  method Relink(x: Node, ghost q: Node, ghost g: Node?, ghost b: Node?,
                ghost S: set<Node>, ghost m: map<Node, Links>, ghost t: BinaryTree)
    requires x in S && q in S
    requires m.Keys == S && forall n :: n in S ==> m[n] == Links(n.parent, n.left, n.right, n.tree)
    requires q == x.parent && q != x && g == q.parent
    requires g != null ==> g in S && g != x && g != q
    requires g == null ==> q.tree == t
    requires b == if q.left == x then x.right else if q.right == x then x.left else null
    requires b != null ==> b in S && b != x && b != q && b != g
    modifies S`parent, S`left, S`right, S`tree, t`root
    ensures g == null ==> t.root == x
    ensures g != null ==> t.root == old(t.root)
    ensures forall n :: n in S ==> Rewire(m, x)[n] == Links(n.parent, n.left, n.right, n.tree)
  {
    ghost var gs: set<Node> := if g == null then {} else {g};
    ghost var bs: set<Node> := if b == null then {} else {b};
    Repoint(x, q, g, b, gs, bs, t);
  }

  /** The pointer writes themselves, touching only the fields they assign. */
  method Repoint(x: Node, ghost q: Node, ghost g: Node?, ghost b: Node?, ghost gs: set<Node>, ghost bs: set<Node>, ghost t: BinaryTree)
    requires g != null ==> g in gs
    requires b != null ==> b in bs
    requires q == x.parent && q != x && g == q.parent
    requires g != null ==> g != x && g != q
    requires g == null ==> q.tree == t
    requires b == if q.left == x then x.right else if q.right == x then x.left else null
    requires b != null ==> b != x && b != q && b != g
    modifies x`parent, x`left, x`right, x`tree, q`parent, q`left, q`right, q`tree, gs`left, gs`right, bs`parent, t`root
    ensures x.parent == g && q.parent == x
    ensures old(q.left) == x ==> x.left == old(x.left) && x.right == q && q.left == b && q.right == old(q.right)
    ensures old(q.left) != x && old(q.right) == x ==> x.left == q && x.right == old(x.right) && q.left == old(q.left) && q.right == b
    ensures old(q.left) != x && old(q.right) != x ==> x.left == old(x.left) && x.right == old(x.right) && q.left == old(q.left) && q.right == old(q.right)
    ensures g == null ==> x.tree == old(q.tree) && q.tree == null && t.root == x
    ensures g != null ==> x.tree == old(x.tree) && q.tree == old(q.tree) && t.root == old(t.root)
    ensures g != null && old(g.left) == q ==> g.left == x && g.right == old(g.right)
    ensures g != null && old(g.left) != q && old(g.right) == q ==> g.left == old(g.left) && g.right == x
    ensures g != null && old(g.left) != q && old(g.right) != q ==> g.left == old(g.left) && g.right == old(g.right)
    ensures b != null ==> b.parent == q
  {
    var p := x.parent;
    if p.parent != null {
      if p.parent.left == p {
        p.parent.left := x;
      } else if p.parent.right == p {
        p.parent.right := x;
      }
    } else {
      x.tree := p.tree;
      x.tree.root := x;
      p.tree := null;
    }
    x.parent := p.parent;
    if p.left == x {
      p.left := x.right;
      if x.right != null { x.right.parent := p; }
      x.right := p;
    } else if p.right == x {
      p.right := x.left;
      if x.left != null { x.left.parent := p; }
      x.left := p;
    }
    p.parent := x;
  }
}
