/// `RBTree` of rb.py: a search tree whose nodes carry a colour and a black
/// height, rebalanced after an insertion by recolouring and rotating
/// (`_insert_fixup`), with `_join` (concatenate two red-black trees through
/// a pivot) and `split` (rotate a node to the root, re-joining what it
/// leaves behind) built from the same steps.
///
/// The rotations are `Rotation.Lift`; colour and black height are fields of
/// the shared `Node`, which rotations do not touch.
module RedBlack {
  import opened BinTree
  import opened Bst
  import opened Rotation

  /** A Python value that may be `None`. */
  datatype Option<T> = None | Some(value: T)

  // ---------------------------------------------------------------------
  // The red-black rules
  //
  // rb.py states them as: the root is black; a red node has black children
  // (a missing child counting as black); every path from a node down to a
  // missing child passes the same number of black nodes, and `bh` is that
  // number. They are read here on the record of pointer fields a valid tree
  // keeps (`links`) and a record of colours (`Paints`): `Rules` checks the
  // last two rules at one node against its children, `Balanced` at every
  // node. `RulesBelow` reads the path form of rb.py back out of them.

  /** What the rules read in a node besides its pointers. */
  datatype Paint = Paint(color: Color, bh: int)

  /** The colours and black heights of the nodes of `t`. */
  ghost function Paints(t: BinaryTree): map<Node, Paint>
    reads t, t.Repr`color, t.Repr`bh
  {
    PaintsIn(t.Repr)
  }

  /** The colours and black heights of the nodes of `R`. */
  ghost function PaintsIn(R: set<Node>): map<Node, Paint>
    reads R`color, R`bh
  {
    map n | n in R :: Paint(n.color, n.bh)
  }

  /** A red node; a missing child counts as black. */
  ghost predicate IsRed(c: map<Node, Paint>, x: Node?)
  {
    x != null && x in c && c[x].color == Red
  }

  /** The black height below a child; a missing child has none. */
  ghost function BhOf(c: map<Node, Paint>, x: Node?): int
  {
    if x != null && x in c then c[x].bh else 0
  }

  /** What a node adds to the black count of the paths through it. */
  function Blacks(k: Paint): int
  {
    if k.color == Black then 1 else 0
  }

  /** The rules at a node painted `k` with children `l` and `r`: `bh`
      counts the node when it is black plus the black height below either
      child (so the two are equal), and a red node has no red child other
      than `p`, the node a repair is working on. */
  ghost predicate Local(c: map<Node, Paint>, k: Paint, l: Node?, r: Node?, p: Node?)
  {
    k.bh == Blacks(k) + BhOf(c, l) && k.bh == Blacks(k) + BhOf(c, r) &&
    (k.color == Red ==> (IsRed(c, l) ==> l == p) && (IsRed(c, r) ==> r == p))
  }

  /** The children of `n` are recorded nodes. */
  ghost predicate Closed(m: map<Node, Links>, n: Node)
  {
    n in m && (m[n].left != null ==> m[n].left in m) && (m[n].right != null ==> m[n].right in m)
  }

  /** The rules at `n` against its own children. */
  ghost predicate Rules(m: map<Node, Links>, c: map<Node, Paint>, n: Node, p: Node?)
  {
    Closed(m, n) && n in c && Local(c, c[n], m[n].left, m[n].right, p)
  }

  /** The rules at every node, a red child of a red node allowed only when
      that child is `p`. */
  ghost predicate Balanced(m: map<Node, Links>, c: map<Node, Paint>, p: Node?)
  {
    m.Keys == c.Keys && forall n {:trigger Rules(m, c, n, p)} :: n in m ==> Rules(m, c, n, p)
  }

  /** The rules at every node but `x`, whose children's roots may be red
      and whose own fields are not looked at: what `_join` expects of the
      two subtrees of `x`. */
  ghost predicate Offside(m: map<Node, Links>, c: map<Node, Paint>, x: Node)
  {
    m.Keys == c.Keys && Closed(m, x) && forall n {:trigger Rules(m, c, n, null)} :: n in m && n != x ==> Rules(m, c, n, null)
  }

  /** The pointer record of `n` fits a tree: each child records `n` as its
      parent, `n` is not its own child nor both children of one node, and a
      parent has `n` as a child. */
  ghost predicate TreeAt(m: map<Node, Links>, n: Node)
  {
    n in m &&
    (m[n].left != null ==> m[n].left in m && m[m[n].left].parent == n && m[n].left != n) &&
    (m[n].right != null ==> m[n].right in m && m[m[n].right].parent == n && m[n].right != n) &&
    (m[n].left != null ==> m[n].left != m[n].right) &&
    (m[n].parent != null ==> m[n].parent in m && (m[m[n].parent].left == n || m[m[n].parent].right == n))
  }

  /** Every pointer record fits a tree. */
  ghost predicate Treelike(m: map<Node, Links>)
  {
    forall n {:trigger TreeAt(m, n)} :: n in m ==> TreeAt(m, n)
  }

  /** What `_insert_fixup` keeps while it climbs: `p` is red, and the
      rules hold at every node, except that `p` may be the red child of a
      red parent. */
  ghost predicate Repair(m: map<Node, Links>, c: map<Node, Paint>, p: Node)
  {
    Balanced(m, c, p) && IsRed(c, p)
  }

  /** A red-black tree: the rules at every node, and a black root. */
  ghost predicate RedBlack(m: map<Node, Links>, c: map<Node, Paint>, root: Node?)
  {
    Balanced(m, c, null) && (root != null ==> root in c && c[root].color == Black)
  }

  /** The structural root is black, or it is `p`, the node the repair is
      looking at. This is what `_insert_fixup` relies on when it reads the
      grandparent of a node with a red parent. */
  ghost predicate RootReady(t: BinaryTree, p: Node)
    reads t, Opt(t.root)`color
  {
    t.root == p || (t.root != null && t.root.color == Black)
  }

  /** Rule 3 on a shape: every path from its top down to a missing child
      passes `h` black nodes. */
  ghost predicate BlackPaths(s: Tree, h: int)
    reads Nodes(s)`color
  {
    match s
    case Nil => h == 0
    case Br(l, n, r) =>
      var b := if n.color == Black then 1 else 0;
      BlackPaths(l, h - b) && BlackPaths(r, h - b)
  }

  /** Rule 2 on a shape: no red node has a red child; when `redAbove`, the
      node above the top is red too, so the top must be black. */
  ghost predicate NoRedRed(s: Tree, redAbove: bool)
    reads Nodes(s)`color
  {
    match s
    case Nil => true
    case Br(l, n, r) =>
      !(redAbove && n.color == Red) && NoRedRed(l, n.color == Red) && NoRedRed(r, n.color == Red)
  }

  /** Below every node of a tree that keeps the rules locally, every path
      to a missing child passes `bh` black nodes, and no red node has a red
      child. */
  lemma {:induction false} RulesBelow(t: BinaryTree, x: Node)
    requires t.Valid() && Balanced(t.links, Paints(t), null) && x in t.Repr
    ensures BlackPaths(Sub(t.shape, x), x.bh) && NoRedRed(Sub(t.shape, x), false)
    ensures x.color == Black ==> NoRedRed(Sub(t.shape, x), true)
    decreases Sub(t.shape, x)
  {
    NodeFacts(t, x);
    ChildFacts(t.shape, null, x);
    assert Rules(t.links, Paints(t), x, null);
    var s := Sub(t.shape, x);
    if x.left != null {
      RulesBelow(t, x.left);
    } else {
      assert s.left == Nil;
    }
    if x.right != null {
      RulesBelow(t, x.right);
    } else {
      assert s.right == Nil;
    }
  }

  /** A red-black tree in the sense of `RedBlack` keeps the three rules
      as rb.py states them: the root is black, no red node has a red child,
      and every path from the root to a missing child passes the root's
      `bh` black nodes. */
  lemma RedBlackRules(t: BinaryTree)
    requires t.Valid() && RedBlack(t.links, Paints(t), t.root) && t.root != null
    ensures t.root.color == Black && NoRedRed(t.shape, true) && BlackPaths(t.shape, t.root.bh)
  {
    NodeFacts(t, t.root);
    RulesBelow(t, t.root);
  }

  /** The record of pointer fields of a valid tree fits a tree. */
  lemma Parented(t: BinaryTree)
    requires t.Valid()
    ensures Treelike(t.links)
  {
    forall n | n in t.Repr
      ensures TreeAt(t.links, n)
    {
      ChildOf(t, n);
      IsRoot(t, n);
      if n.parent != null {
        ParentOf(t, n);
      }
      if n.left != null {
        DepthStep(t, n.left);
      }
      if n.right != null {
        DepthStep(t, n.right);
      }
    }
  }

  // ---------------------------------------------------------------------
  // Each step of the repair keeps the rules

  /** The colours after the recolouring case: parent `q` and uncle `y`
      black with one black level more, grandparent `g` red. */
  ghost function Recoloured(c: map<Node, Paint>, q: Node, y: Node, g: Node): map<Node, Paint>
    requires q in c && y in c && g in c
  {
    c[q := Paint(Black, c[q].bh + 1)][y := Paint(Black, c[y].bh + 1)][g := Paint(Red, c[g].bh)]
  }

  /** The recolouring case moves the repair from `p` to its grandparent:
      parent and uncle were red, so the grandparent was black with one
      black level more than either, and making it red in exchange for
      blackening both keeps every black count. */
  lemma RecolorKeeps(m: map<Node, Links>, c: map<Node, Paint>, p: Node, q: Node, g: Node, y: Node)
    requires Treelike(m) && Balanced(m, c, p) && p in m && q in m && g in m && y in m
    requires m[p].parent == q && m[q].parent == g && p != g
    requires m[g].parent != q && m[g].parent != y
    requires (m[g].left == q && m[g].right == y) || (m[g].right == q && m[g].left == y)
    requires IsRed(c, p) && IsRed(c, q) && IsRed(c, y)
    ensures Balanced(m, Recoloured(c, q, y, g), g)
  {
    RecolorTop(m, c, p, q, g, y);
    forall n | n in m && n != q && n != y && n != g
      ensures Rules(m, Recoloured(c, q, y, g), n, g)
    {
      RecolorElse(m, c, p, q, g, y, n);
    }
  }

  /** The three repainted nodes of `RecolorKeeps` keep the rules: the
      grandparent is red over two black children, and each of those has
      the black height of its children plus one. */
  lemma RecolorTop(m: map<Node, Links>, c: map<Node, Paint>, p: Node, q: Node, g: Node, y: Node)
    requires Treelike(m) && Balanced(m, c, p) && p in m && q in m && g in m && y in m
    requires m[p].parent == q && m[q].parent == g && p != g
    requires m[g].parent != q && m[g].parent != y
    requires (m[g].left == q && m[g].right == y) || (m[g].right == q && m[g].left == y)
    requires IsRed(c, p) && IsRed(c, q) && IsRed(c, y)
    ensures Rules(m, Recoloured(c, q, y, g), q, g)
    ensures Rules(m, Recoloured(c, q, y, g), y, g)
    ensures Rules(m, Recoloured(c, q, y, g), g, g)
  {
    assert TreeAt(m, p) && TreeAt(m, q) && TreeAt(m, g) && TreeAt(m, y);
    RecolorSide(m, c, p, q, g, y, q);
    RecolorSide(m, c, p, q, g, y, y);
    assert Rules(m, c, g, p) && Rules(m, c, q, p);
    assert c[g].color == Black;
  }

  /** The parent or the uncle, red below the black grandparent, turns
      black with one black level more; its children are not repainted. */
  lemma RecolorSide(m: map<Node, Links>, c: map<Node, Paint>, p: Node, q: Node, g: Node, y: Node, s: Node)
    requires Treelike(m) && Balanced(m, c, p) && p in m && q in m && g in m && y in m
    requires m[p].parent == q && m[q].parent == g && p != g
    requires (m[g].left == q && m[g].right == y) || (m[g].right == q && m[g].left == y)
    requires m[g].parent != q && m[g].parent != y
    requires IsRed(c, q) && IsRed(c, y) && (s == q || s == y)
    ensures Rules(m, Recoloured(c, q, y, g), s, g)
  {
    assert TreeAt(m, s) && TreeAt(m, g) && Rules(m, c, s, p);
    var l, r := m[s].left, m[s].right;
    assert l != null ==> TreeAt(m, l);
    assert r != null ==> TreeAt(m, r);
    assert l != q && l != y && l != g && r != q && r != y && r != g;
  }

  /** A node `RecolorKeeps` does not repaint keeps its rules; above the
      grandparent, this is because the grandparent keeps its black height. */
  lemma RecolorElse(m: map<Node, Links>, c: map<Node, Paint>, p: Node, q: Node, g: Node, y: Node, n: Node)
    requires Treelike(m) && Balanced(m, c, p) && p in m && q in m && g in m && y in m && n in m
    requires m[p].parent == q && m[q].parent == g && p != g
    requires m[g].parent != q && m[g].parent != y
    requires (m[g].left == q && m[g].right == y) || (m[g].right == q && m[g].left == y)
    requires IsRed(c, p) && IsRed(c, q) && IsRed(c, y)
    requires n != q && n != y && n != g
    ensures Rules(m, Recoloured(c, q, y, g), n, g)
  {
    assert TreeAt(m, p) && TreeAt(m, q) && TreeAt(m, g) && TreeAt(m, y);
    assert Rules(m, c, n, p) && TreeAt(m, n) && Rules(m, c, g, p);
    var l, r := m[n].left, m[n].right;
    if n == m[g].parent {
      assert l != q && l != y && r != q && r != y;
    } else {
      assert l != q && l != y && l != g && r != q && r != y && r != g;
    }
  }

  /** The inner case of a rotating round: `p`, inner child of its red
      parent `q`, is rotated up; no colour changes, and the repair moves to
      `q`, now the outer child of `p`. */
  lemma TurnKeeps(m: map<Node, Links>, c: map<Node, Paint>, p: Node, q: Node, g: Node)
    requires Treelike(m) && Balanced(m, c, p) && p in m && q in m && g in m
    requires m[p].parent == q && m[q].parent == g && p != g && m[g].parent != p
    requires (m[g].left == q && m[q].right == p) || (m[g].right == q && m[q].left == p)
    requires IsRed(c, p) && IsRed(c, q)
    ensures Balanced(Rewire(m, p), c, q)
  {
    var m' := Rewire(m, p);
    assert TreeAt(m, p) && TreeAt(m, q) && TreeAt(m, g);
    RewireKeys(m, p);
    RewireAt(m, p);
    assert Rules(m, c, q, p) && Rules(m, c, g, p) && Rules(m, c, p, p);
    forall n | n in m'
      ensures Rules(m', c, n, q)
    {
      assert Rules(m, c, n, p) && TreeAt(m, n);
      if n != p && n != q && n != g {
        RewireElse(m, p, n);
      }
    }
  }

  /** The colours after the outer case: parent `u` black with one black
      level more, grandparent `g` red with one less. */
  ghost function Promoted(c: map<Node, Paint>, u: Node, g: Node): map<Node, Paint>
    requires u in c && g in c
  {
    c[u := Paint(Black, c[u].bh + 1)][g := Paint(Red, c[g].bh - 1)]
  }

  /** The outer case: the red parent `u` of `x` turns black with one black
      level more, the grandparent `g` red with one less, and `u` is rotated
      above `g`. The uncle `y` is not red, so `g` may be red below `u`. */
  lemma PromoteKeeps(m: map<Node, Links>, c: map<Node, Paint>, x: Node, u: Node, g: Node, y: Node?)
    requires Treelike(m) && Balanced(m, c, x) && x in m && u in m && g in m
    requires m[x].parent == u && m[u].parent == g && x != g
    requires m[g].parent != null ==> m[g].parent !in {x, u, m[u].left, m[u].right}
    requires (m[g].left == u && m[u].left == x && m[g].right == y) ||
             (m[g].right == u && m[u].right == x && m[g].left == y)
    requires IsRed(c, x) && IsRed(c, u) && !IsRed(c, y)
    ensures Balanced(Rewire(m, u), Promoted(c, u, g), x)
  {
    var m' := Rewire(m, u);
    var c' := Promoted(c, u, g);
    var w := m[g].parent;
    RewireKeys(m, u);
    PromoteTop(m, c, x, u, g, y);
    if w != null {
      PromoteAbove(m, c, x, u, g);
    }
    forall n | n in m'
      ensures Rules(m', c', n, x)
    {
      if n != u && n != g && n != w {
        PromoteElse(m, c, x, u, n);
      }
    }
  }

  /** The rotated pair of `PromoteKeeps` keeps the rules: `u`, now black
      above `x` and `g`, and `g`, now red above the inner child of `u` and
      the uncle. */
  lemma PromoteTop(m: map<Node, Links>, c: map<Node, Paint>, x: Node, u: Node, g: Node, y: Node?)
    requires Treelike(m) && Balanced(m, c, x) && x in m && u in m && g in m
    requires m[x].parent == u && m[u].parent == g && x != g
    requires m[g].parent != null ==> m[g].parent !in {x, u, m[u].left, m[u].right}
    requires (m[g].left == u && m[u].left == x && m[g].right == y) ||
             (m[g].right == u && m[u].right == x && m[g].left == y)
    requires IsRed(c, x) && IsRed(c, u) && !IsRed(c, y)
    ensures Rules(Rewire(m, u), Promoted(c, u, g), u, x)
    ensures Rules(Rewire(m, u), Promoted(c, u, g), g, x)
  {
    var m' := Rewire(m, u);
    var c' := Promoted(c, u, g);
    var b := if m[u].left == x then m[u].right else m[u].left;
    assert TreeAt(m, x) && TreeAt(m, u) && TreeAt(m, g);
    RewireKeys(m, u);
    RewireAt(m, u);
    assert Rules(m, c, u, x) && Rules(m, c, g, x) && Rules(m, c, x, x);
    assert c[g].color == Black && b != x;
    assert b != null ==> b in m && m[b].parent == u && b != g && b != u;
    assert m'[u].left == x || m'[u].right == x;
    assert m'[u].left == g || m'[u].right == g;
    assert m'[g].left == b || m'[g].right == b;
    assert m'[g].left == y || m'[g].right == y;
    assert y != u && y != g;
  }

  /** The node above the rotated pair of `PromoteKeeps` keeps the rules:
      it has `u` where it had `g`, with the same black height. */
  lemma PromoteAbove(m: map<Node, Links>, c: map<Node, Paint>, x: Node, u: Node, g: Node)
    requires Treelike(m) && Balanced(m, c, x) && x in m && u in m && g in m
    requires m[x].parent == u && m[u].parent == g && x != g && IsRed(c, u)
    requires m[g].parent != null && m[g].parent !in {x, u, m[u].left, m[u].right}
    ensures Rules(Rewire(m, u), Promoted(c, u, g), m[g].parent, x)
  {
    var m' := Rewire(m, u);
    var w := m[g].parent;
    assert TreeAt(m, x) && TreeAt(m, u) && TreeAt(m, g) && TreeAt(m, w);
    RewireKeys(m, u);
    RewireAt(m, u);
    assert Rules(m, c, u, x) && Rules(m, c, g, x) && Rules(m, c, w, x) && w != g;
    assert m'[w].left != g && m'[w].right != g;
  }

  /** A node `PromoteKeeps` neither rotates nor repaints keeps its rules:
      its children are neither the rotated parent nor the grandparent. */
  lemma PromoteElse(m: map<Node, Links>, c: map<Node, Paint>, x: Node, u: Node, n: Node)
    requires Treelike(m) && Balanced(m, c, x) && u in m && n in m
    requires m[u].parent != null && m[u].parent in m
    requires n != u && n != m[u].parent && n != m[m[u].parent].parent
    ensures Rules(Rewire(m, u), Promoted(c, u, m[u].parent), n, x)
  {
    var g := m[u].parent;
    assert Rules(m, c, n, x) && TreeAt(m, n) && TreeAt(m, u) && TreeAt(m, g);
    RewireElse(m, u, n);
    RewireKeys(m, u);
    var l, r := m[n].left, m[n].right;
    assert l != u && l != g && r != u && r != g;
  }

  /** The colours after the last step of `_insert_fixup` at `p`: a red `p`
      without a parent turns black with one black level more. */
  ghost function Settled(m: map<Node, Links>, c: map<Node, Paint>, p: Node): map<Node, Paint>
    requires p in m && p in c
  {
    if m[p].parent == null && c[p].color == Red then c[p := Paint(Black, c[p].bh + 1)] else c
  }

  /** Once the climb stops, at the root or below a black parent, the repair
      is complete: no red node has a red child any more. */
  lemma SettleKeeps(m: map<Node, Links>, c: map<Node, Paint>, p: Node)
    requires Treelike(m) && Balanced(m, c, p) && p in m && IsRed(c, p)
    requires m[p].parent == null || !IsRed(c, m[p].parent)
    ensures Balanced(m, Settled(m, c, p), null)
  {
    var c' := Settled(m, c, p);
    assert Rules(m, c, p, p) && TreeAt(m, p);
    forall n | n in m
      ensures Rules(m, c', n, null)
    {
      assert Rules(m, c, n, p) && TreeAt(m, n);
    }
  }

  /** A red leaf of black height 0 hung from `parent` in a free slot of a
      tree that keeps the rules: the rules hold with the new leaf excused. */
  lemma HookKeeps(m: map<Node, Links>, c: map<Node, Paint>, z: Node, parent: Node, isLeft: bool)
    requires Balanced(m, c, null) && z !in m && parent in m
    requires (if isLeft then m[parent].left else m[parent].right) == null
    ensures var m' := m[z := Links(parent, null, null, null)]
              [parent := if isLeft then m[parent].(left := z) else m[parent].(right := z)];
      Balanced(m', c[z := Paint(Red, 0)], z)
  {
    var m' := m[z := Links(parent, null, null, null)]
      [parent := if isLeft then m[parent].(left := z) else m[parent].(right := z)];
    var c' := c[z := Paint(Red, 0)];
    forall n | n in m'
      ensures Rules(m', c', n, z)
    {
      if n != z {
        assert Rules(m, c, n, null);
      }
    }
  }

  /** A node's depth is one more than its parent's. */
  lemma DepthStep(t: BinaryTree, x: Node)
    requires t.Valid() && x in t.Repr && x.parent != null
    ensures x.parent in t.Repr && Depth(t.shape, x) == Depth(t.shape, x.parent) + 1
  {
    NodeFacts(t, x);
    ParentFacts(t.shape, null, x);
  }

  /** No node lies deeper than the number of nodes. */
  lemma {:induction false} DepthBelowSize(s: Tree, x: Node)
    requires x in Nodes(s)
    ensures Depth(s, x) < Size(s)
  {
    match s
    case Br(l, n, r) =>
      if n != x {
        if x in Nodes(l) {
          DepthBelowSize(l, x);
        } else {
          DepthBelowSize(r, x);
        }
      }
  }

  // ---------------------------------------------------------------------
  // _insert_fixup

  /** Whether `x` is a root in the sense of the loop test `p.parent`. */
  lemma IsRoot(t: BinaryTree, x: Node)
    requires t.Valid() && x in t.Repr
    ensures x.parent == null <==> x == t.root
    ensures x.parent != null ==> x.parent in t.Repr
  {
    NodeFacts(t, x);
  }

  /** A child of `x` has `x` as its parent. */
  lemma ChildOf(t: BinaryTree, x: Node)
    requires t.Valid() && x in t.Repr
    ensures x.left != null ==> x.left in t.Repr && x.left.parent == x
    ensures x.right != null ==> x.right in t.Repr && x.right.parent == x
    ensures x.left != null ==> x.left != x.right
  {
    NodeFacts(t, x);
    SubFacts(t.shape, x);
  }

  /** A node with a parent is one of that parent's children. */
  lemma ParentOf(t: BinaryTree, x: Node)
    requires t.Valid() && x in t.Repr && x.parent != null
    ensures x.parent in t.Repr && (x.parent.left == x || x.parent.right == x)
  {
    NodeFacts(t, x);
    NodeFacts(t, x.parent);
    ParentFacts(t.shape, null, x);
  }

  /** Moving pointers leaves every colour and black height where it was. */
  twostate lemma PaintsKept(t: BinaryTree)
    requires t.Repr == old(t.Repr)
    requires forall n :: n in t.Repr ==> n.color == old(n.color) && n.bh == old(n.bh)
    ensures Paints(t) == old(Paints(t))
  {
  }

  /** One node of `t` takes the colour and black height `k`. */
  method Repaint(t: BinaryTree, n: Node, k: Paint)
    requires t.Valid() && n in t.Repr
    modifies n`color, n`bh
    ensures t.Valid() && n.color == k.color && n.bh == k.bh
    ensures Paints(t) == old(Paints(t))[n := k]
  {
    n.color := k.color;
    n.bh := k.bh;
  }

  /** `TurnOuter`'s repair step on the heap's own links and paints. */
  lemma TurnReady(t: BinaryTree, p: Node)
    requires t.Valid() && p in t.Repr && p.parent != null && p.parent.parent != null
    requires (p.parent == p.parent.parent.left && p == p.parent.right) ||
             (p.parent == p.parent.parent.right && p == p.parent.left)
    requires Repair(t.links, Paints(t), p) && p.parent.color == Red
    ensures Repair(Rewire(t.links, p), Paints(t), p.parent)
  {
    var q := p.parent;
    var g := q.parent;
    var c := Paints(t);
    DepthStep(t, p);
    DepthStep(t, q);
    if g.parent != null {
      DepthStep(t, g);
    }
    FieldsAt(t, p);
    FieldsAt(t, q);
    FieldsAt(t, g);
    Parented(t);
    assert c[q] == Paint(q.color, q.bh);
    TurnKeeps(t.links, c, p, q, g);
  }

  /** The first rotating case of `_insert_fixup`: when `p` is the inner
      child of its parent it is rotated up and the old parent, now its outer
      child, takes over; otherwise `p` stays. Either way the node handed
      back is the outer child of a parent that hangs on the side `onLeft`
      names, under the same grandparent with the same other child, and it
      is no deeper than `p` was. No colour changes, so a repair in progress
      at `p` with a red parent is one at the node handed back. */
  method TurnOuter(t: BinaryTree, p: Node, onLeft: bool) returns (x: Node)
    requires t.Valid() && p in t.Repr && p.parent != null && p.parent.parent != null
    requires onLeft <==> p.parent == p.parent.parent.left
    modifies t, t.Repr`parent, t.Repr`left, t.Repr`right, t.Repr`tree
    ensures t.Valid() && t.Repr == old(t.Repr) && InOrder(t.shape) == old(InOrder(t.shape))
    ensures x in t.Repr && x.parent != null && x.parent.parent != null && t.root == old(t.root)
    ensures onLeft ==> x == x.parent.left && x.parent == x.parent.parent.left
    ensures !onLeft ==> x == x.parent.right && x.parent == x.parent.parent.right
    ensures x.parent.parent == old(p.parent.parent)
    ensures onLeft ==> x.parent.parent.right == old(p.parent.parent.right)
    ensures !onLeft ==> x.parent.parent.left == old(p.parent.parent.left)
    ensures Depth(t.shape, x) <= old(Depth(t.shape, p))
    ensures Paints(t) == old(Paints(t))
    ensures old(RootReady(t, p)) ==> RootReady(t, x)
    ensures old(Repair(t.links, Paints(t), p) && p.parent.color == Red) ==>
      Repair(t.links, Paints(t), x) && x.parent.color == Red
  {
    var q := p.parent;
    ghost var g := q.parent;
    ParentOf(t, p);
    ParentOf(t, q);
    ChildOf(t, q);
    IsRoot(t, p);
    if (onLeft && p == q.right) || (!onLeft && p == q.left) {
      DepthStep(t, p);
      if Repair(t.links, Paints(t), p) && q.color == Red {
        TurnReady(t, p);
      }
      Rise(t, p);
      x := q;
      DepthStep(t, x);
    } else {
      x := p;
    }
  }

  /** `Promote`'s repair step on the heap's own links and paints. */
  lemma PromoteReady(t: BinaryTree, x: Node, y: Node?)
    requires t.Valid() && x in t.Repr && x.parent != null && x.parent.parent != null
    requires (x == x.parent.left && x.parent == x.parent.parent.left && y == x.parent.parent.right) ||
             (x == x.parent.right && x.parent == x.parent.parent.right && y == x.parent.parent.left)
    requires Repair(t.links, Paints(t), x) && x.parent.color == Red && !IsRed(Paints(t), y)
    ensures x.parent in t.Repr && x.parent.parent in t.Repr
    ensures Repair(Rewire(t.links, x.parent), Promoted(Paints(t), x.parent, x.parent.parent), x)
  {
    var u := x.parent;
    var g := u.parent;
    var c := Paints(t);
    DepthStep(t, x);
    DepthStep(t, u);
    ChildOf(t, u);
    if u.left != null {
      DepthStep(t, u.left);
    }
    if u.right != null {
      DepthStep(t, u.right);
    }
    if g.parent != null {
      DepthStep(t, g);
    }
    FieldsAt(t, x);
    FieldsAt(t, u);
    FieldsAt(t, g);
    Parented(t);
    assert c[u] == Paint(u.color, u.bh);
    PromoteKeeps(t.links, c, x, u, g, y);
  }

  /** Blackens `u` with one black level more and reddens `g` with one
      less, as `Promoted` says. */
  method PaintPromoted(t: BinaryTree, u: Node, g: Node)
    requires t.Valid() && u in t.Repr && g in t.Repr && u != g
    modifies u`color, u`bh, g`color, g`bh
    ensures t.Valid() && u.color == Black && g.color == Red && unchanged(t.Repr`isRoot)
    ensures Paints(t) == Promoted(old(Paints(t)), u, g)
    ensures old(t.root == u || (t.root != null && t.root != g && t.root.color == Black)) ==>
      t.root != null && t.root.color == Black
  {
    ghost var c: map<Node, Paint> := Paints(t);
    var ku, kg := Paint(Black, u.bh + 1), Paint(Red, g.bh - 1);
    assert Promoted(c, u, g) == c[u := ku][g := kg];
    Repaint(t, u, ku);
    Repaint(t, g, kg);
  }

  /** The second rotating case of `_insert_fixup`, at an outer child `x`
      whose uncle `y` is black or missing: its parent turns black with one
      black level more, the grandparent red with one less, and the parent
      is rotated above the grandparent. `x` rises one level, a black root
      stays black (when the grandparent was the root, the black parent takes
      its place), and a repair in progress at `x` is complete at `x`, whose
      parent is now black. */
  method Promote(t: BinaryTree, x: Node, onLeft: bool)
    requires t.Valid() && x in t.Repr && x.parent != null && x.parent.parent != null
    requires onLeft ==> x == x.parent.left && x.parent == x.parent.parent.left
    requires !onLeft ==> x == x.parent.right && x.parent == x.parent.parent.right
    modifies t, t.Repr`parent, t.Repr`left, t.Repr`right, t.Repr`tree, t.Repr`color, t.Repr`bh
    ensures t.Valid() && t.Repr == old(t.Repr) && InOrder(t.shape) == old(InOrder(t.shape))
    ensures x in t.Repr && Depth(t.shape, x) < old(Depth(t.shape, x))
    ensures old(x.parent) in old(t.Repr) && old(x.parent.parent) in old(t.Repr)
    ensures t.links == Rewire(old(t.links), old(x.parent))
    ensures Paints(t) == Promoted(old(Paints(t)), old(x.parent), old(x.parent.parent))
    ensures old(RootReady(t, x)) ==> RootReady(t, x)
  {
    var u := x.parent;
    var g := u.parent;
    Hoist(t, x);
    PaintPromoted(t, u, g);
  }

  /** The rotation of `Promote`: the parent `u` of `x` rises above the
      grandparent `g`, taking its place as root when `g` was the root, and
      `x` rises one level with it. */
  method Hoist(t: BinaryTree, x: Node)
    requires t.Valid() && x in t.Repr && x.parent != null && x.parent.parent != null
    requires (x == x.parent.left && x.parent == x.parent.parent.left) ||
             (x == x.parent.right && x.parent == x.parent.parent.right)
    modifies t, t.Repr`parent, t.Repr`left, t.Repr`right, t.Repr`tree
    ensures t.Valid() && t.Repr == old(t.Repr) && InOrder(t.shape) == old(InOrder(t.shape))
    ensures x in t.Repr && Depth(t.shape, x) < old(Depth(t.shape, x))
    ensures old(x.parent) in t.Repr && old(x.parent.parent) in t.Repr && old(x.parent) != old(x.parent.parent)
    ensures t.links == Rewire(old(t.links), old(x.parent)) && Paints(t) == old(Paints(t))
    ensures old(RootReady(t, x)) ==>
      t.root == old(x.parent) || (t.root != null && t.root != old(x.parent.parent) && t.root.color == Black)
  {
    var u := x.parent;
    var g := u.parent;
    IsRoot(t, x);
    IsRoot(t, u);
    IsRoot(t, g);
    DepthStep(t, x);
    DepthStep(t, u);
    ChildOf(t, g);
    Rise(t, u);
    ChildDepth(t, u, x);
  }

  /** `Lift` seen from the red-black rules: the pointer record is rewired,
      no colour changes, and `x` keeps its child on the side away from its
      old parent. */
  method Rise(t: BinaryTree, x: Node)
    requires t.Valid() && x in t.Repr && x.parent != null
    modifies t, t.Repr`parent, t.Repr`left, t.Repr`right, t.Repr`tree
    ensures t.Valid() && t.Repr == old(t.Repr) && InOrder(t.shape) == old(InOrder(t.shape))
    ensures t.shape == RotateUp(old(t.shape), x) && unchanged(t.Repr`isRoot)
    ensures t.links == Rewire(old(t.links), x) && Paints(t) == old(Paints(t))
    ensures t.root == if old(x.parent.parent) == null then x else old(t.root)
    ensures Depth(t.shape, x) + 1 == old(Depth(t.shape, x))
    ensures x.parent == old(x.parent.parent) && old(x.parent).parent == x
    ensures old(x.parent.left) == x ==> x.left == old(x.left) && x.right == old(x.parent)
    ensures old(x.parent.left) != x ==> x.right == old(x.right) && x.left == old(x.parent)
    ensures old(x.parent.parent) != null && old(x.parent.parent.left) == old(x.parent) ==>
      old(x.parent.parent).left == x && old(x.parent.parent).right == old(x.parent.parent.right)
    ensures old(x.parent.parent) != null && old(x.parent.parent.left) != old(x.parent) ==>
      old(x.parent.parent).right == x && old(x.parent.parent).left == old(x.parent.parent.left)
  {
    Lift(x, t);
    PaintsKept(t);
  }

  /** A child lies one level below its parent. */
  lemma ChildDepth(t: BinaryTree, u: Node, x: Node)
    requires t.Valid() && u in t.Repr && (u.left == x || u.right == x)
    ensures x in t.Repr && x.parent == u && Depth(t.shape, x) == Depth(t.shape, u) + 1
  {
    ChildOf(t, u);
    DepthStep(t, x);
  }

  /** `Recolor`'s repair step on the heap's own links and paints. */
  lemma RecolorReady(t: BinaryTree, p: Node, y: Node)
    requires t.Valid() && p in t.Repr && p.parent != null && p.parent.parent != null
    requires y == p.parent.parent.left || y == p.parent.parent.right
    requires y != p.parent && p.parent in t.Repr && p.parent.parent in t.Repr && y in t.Repr
    requires Repair(t.links, Paints(t), p) && p.parent.color == Red && y.color == Red
    ensures Repair(t.links, Recoloured(Paints(t), p.parent, y, p.parent.parent), p.parent.parent)
  {
    var q := p.parent;
    var g := q.parent;
    var c := Paints(t);
    IsRoot(t, p);
    IsRoot(t, q);
    ChildOf(t, g);
    IsRoot(t, y);
    DepthStep(t, p);
    DepthStep(t, q);
    DepthStep(t, y);
    if g.parent != null {
      DepthStep(t, g);
    }
    FieldsAt(t, p);
    FieldsAt(t, q);
    FieldsAt(t, g);
    Parented(t);
    assert c[q] == Paint(q.color, q.bh) && c[y] == Paint(y.color, y.bh);
    assert TreeAt(t.links, q);
    RecolorKeeps(t.links, c, p, q, g, y);
  }

  /** The three nodes `Recolor` repaints are distinct members of `t`, and
      the grandparent lies above `p`. */
  lemma RecolorFacts(t: BinaryTree, p: Node, y: Node)
    requires t.Valid() && p in t.Repr && p.parent != null && p.parent.parent != null
    requires y == p.parent.parent.left || y == p.parent.parent.right
    requires y != p.parent
    ensures p.parent in t.Repr && p.parent.parent in t.Repr && y in t.Repr
    ensures p.parent.parent != p.parent && p.parent.parent != y
    ensures p.parent != t.root && y != t.root && p != t.root
    ensures Depth(t.shape, p.parent.parent) < Depth(t.shape, p)
  {
    var q := p.parent;
    var g := q.parent;
    IsRoot(t, p);
    IsRoot(t, q);
    DepthStep(t, p);
    DepthStep(t, q);
    ChildOf(t, g);
    IsRoot(t, y);
    DepthStep(t, y);
  }

  /** Blackens `q` and `y` with one black level more each and reddens `g`,
      as `Recoloured` says. */
  method PaintRecoloured(t: BinaryTree, q: Node, y: Node, g: Node)
    requires t.Valid() && q in t.Repr && y in t.Repr && g in t.Repr && q != y && g != q && g != y
    modifies q`color, q`bh, y`color, y`bh, g`color, g`bh
    ensures t.Valid() && g.color == Red
    ensures Paints(t) == Recoloured(old(Paints(t)), q, y, g)
  {
    ghost var c: map<Node, Paint> := Paints(t);
    var kq, ky, kg := Paint(Black, q.bh + 1), Paint(Black, y.bh + 1), Paint(Red, g.bh);
    assert Recoloured(c, q, y, g) == c[q := kq][y := ky][g := kg];
    Repaint(t, q, kq);
    Repaint(t, y, ky);
    Repaint(t, g, kg);
  }

  /** The recolouring case of `_insert_fixup`: parent and uncle turn black
      with one black level more each, the grandparent turns red, and the
      repair moves on to the grandparent, two levels up. No other node
      changes colour, so a black root stays black. */
  method Recolor(t: BinaryTree, p: Node, y: Node) returns (g: Node)
    requires t.Valid() && p in t.Repr && p.parent != null && p.parent.parent != null
    requires y == p.parent.parent.left || y == p.parent.parent.right
    requires y != p.parent
    modifies t.Repr`color, t.Repr`bh
    ensures t.Valid() && unchanged(t.Repr`isRoot)
    ensures g == old(p.parent.parent) && g in t.Repr && old(p.parent) in t.Repr && y in t.Repr
    ensures Depth(t.shape, g) < old(Depth(t.shape, p))
    ensures Paints(t) == Recoloured(old(Paints(t)), old(p.parent), y, g)
    ensures old(RootReady(t, p)) ==> RootReady(t, g)
    ensures old(Repair(t.links, Paints(t), p) && p.parent.color == Red && y.color == Red) ==>
      Repair(t.links, Paints(t), g)
  {
    var q: Node := p.parent;
    g := q.parent;
    RecolorFacts(t, p, y);
    if Repair(t.links, Paints(t), p) && q.color == Red && y.color == Red {
      RecolorReady(t, p, y);
    }
    PaintRecoloured(t, q, y, g);
  }

  /** One round of the loop of `_insert_fixup` at a node `p` whose parent
      is red: without a grandparent it raises `AttributeError`; with a red
      uncle, `Recolor`; otherwise `TurnOuter` and `Promote`. The node handed
      back is higher than `p`; from a ready root the round does not raise
      and the root stays ready, and a repair in progress at `p` is one at
      the node handed back. */
  method FixupStep(t: BinaryTree, p: Node) returns (r: Outcome<Node>)
    requires t.Valid() && p in t.Repr && p.parent != null && p.parent.color == Red
    modifies t, t.Repr`parent, t.Repr`left, t.Repr`right, t.Repr`tree, t.Repr`color, t.Repr`bh
    ensures t.Valid() && t.Repr == old(t.Repr) && InOrder(t.shape) == old(InOrder(t.shape))
    ensures r.Raise? ==> r.error == AttributeError && old(p.parent.parent) == null
    ensures r.Ok? ==> r.value in t.Repr && Depth(t.shape, r.value) < old(Depth(t.shape, p))
    ensures old(RootReady(t, p)) ==> r.Ok? && RootReady(t, r.value)
    ensures old(RootReady(t, p) && Repair(t.links, Paints(t), p)) ==>
      r.Ok? && Repair(t.links, Paints(t), r.value)
  {
    var q := p.parent;
    var g := q.parent;
    IsRoot(t, p);
    IsRoot(t, q);
    if g == null {
      return Raise(AttributeError);
    }
    ChildOf(t, g);
    var onLeft := q == g.left;
    var y := if onLeft then g.right else g.left;
    if y != null && y.color == Red {
      var g' := Recolor(t, p, y);
      return Ok(g');
    }
    assert y != null ==> y in t.Repr && Paints(t)[y].color == y.color;
    var x := TurnOuter(t, p, onLeft);
    if Repair(t.links, Paints(t), x) && x.parent.color == Red && !IsRed(Paints(t), y) {
      PromoteReady(t, x, y);
    }
    Promote(t, x, onLeft);
    return Ok(x);
  }

  /** The end of `_insert_fixup`, once the climb has stopped at the root
      or below a black parent: a red structural root turns black with one
      black level more. A ready root is then black, and a repair in
      progress is complete: the tree is red-black. */
  method SettleRoot(t: BinaryTree, p: Node)
    requires t.Valid() && p in t.Repr && (p.parent == null || p.parent.color != Red)
    modifies p`color, p`bh
    ensures t.Valid() && p in t.links && p in old(Paints(t))
    ensures Paints(t) == Settled(t.links, old(Paints(t)), p)
    ensures old(RootReady(t, p)) ==> t.root != null && t.root.color == Black
    ensures old(RootReady(t, p) && Repair(t.links, Paints(t), p)) ==> RedBlack(t.links, Paints(t), t.root)
  {
    ghost var c := Paints(t);
    IsRoot(t, p);
    FieldsAt(t, p);
    if RootReady(t, p) && Repair(t.links, c, p) {
      Parented(t);
      assert p.parent != null ==> p.parent in t.Repr && c[p.parent].color == p.parent.color;
      SettleKeeps(t.links, c, p);
    }
    if p.parent == null && p.color == Red {
      Repaint(t, p, Paint(Black, p.bh + 1));
    }
  }

  /** `_insert_fixup(p)`: repair while the parent of `p` is red, then make a
      red structural root black (one black level more). Only colours, black
      heights and rotations change, so the in-order sequence is kept. A red
      parent without a grandparent raises `AttributeError`; that cannot
      happen when the root is black to begin with (or is `p`), and then the
      root is black at the end. Started from a red `p` with the rules
      holding everywhere else, it ends with a red-black tree. */
  method InsertFixup(t: BinaryTree, p0: Node) returns (r: Outcome<()>)
    requires t.Valid() && p0 in t.Repr
    modifies t, t.Repr`parent, t.Repr`left, t.Repr`right, t.Repr`tree, t.Repr`color, t.Repr`bh
    ensures t.Valid() && t.Repr == old(t.Repr) && InOrder(t.shape) == old(InOrder(t.shape))
    ensures r.Raise? ==> r.error == AttributeError
    ensures old(RootReady(t, p0)) ==> r.Ok? && t.root != null && t.root.color == Black
    ensures old(RootReady(t, p0) && Repair(t.links, Paints(t), p0)) ==>
      r.Ok? && RedBlack(t.links, Paints(t), t.root)
  {
    ghost var ready := RootReady(t, p0);
    ghost var rb := ready && Repair(t.links, Paints(t), p0);
    var p := p0;
    while p.parent != null && p.parent.color == Red
      invariant t.Valid() && t.Repr == old(t.Repr) && InOrder(t.shape) == old(InOrder(t.shape))
      invariant p in t.Repr && (ready ==> RootReady(t, p)) && (rb ==> Repair(t.links, Paints(t), p))
      decreases Depth(t.shape, p)
    {
      var step := FixupStep(t, p);
      if step.Raise? {
        return Raise(step.error);
      }
      p := step.value;
    }
    SettleRoot(t, p);
    return Ok(());
  }

  // ---------------------------------------------------------------------
  // insert

  /** Shapes with the same in-order sequence hold the same keys. */
  lemma SameKeys(a: Tree, b: Tree)
    requires InOrder(a) == InOrder(b)
    ensures KeySet(a) == KeySet(b)
  {
    KeySetInOrder(a);
    KeySetInOrder(b);
  }

  /** A new node joins the tree with its own paint; nobody else is
      repainted. */
  twostate lemma PaintsGrown(t: BinaryTree, new z: Node)
    requires z !in old(t.Repr) && t.Repr == old(t.Repr) + {z}
    requires forall n :: n in old(t.Repr) ==> n.color == old(n.color) && n.bh == old(n.bh)
    ensures Paints(t) == old(Paints(t))[z := Paint(z.color, z.bh)]
  {
  }

  /** A lone black node of black height 1 is a red-black tree. */
  lemma LoneKeeps(z: Node, o: BinaryTree)
    ensures RedBlack(map[z := Links(null, null, null, o)], map[z := Paint(Black, 1)], z)
  {
    var m := map[z := Links(null, null, null, o)];
    var c := map[z := Paint(Black, 1)];
    assert Rules(m, c, z, null);
  }

  /** The empty-tree path of `insert`: the key becomes a black root of
      black height 1, a red-black tree of one node. */
  method InsertRoot(t: BinaryTree, key: int, data: int)
    requires t.Valid() && t.root == null
    modifies t
    ensures t.Valid() && t.root != null && t.Repr == {t.root} && fresh(t.root)
    ensures t.root.key == key && t.root.data == data && t.root.color == Black && t.root.bh == 1
    ensures KeySet(t.shape) == {key}
    ensures RedBlack(t.links, Paints(t), t.root)
  {
    var root := MakeRoot(t, key, data, Black, 1);
    LoneKeeps(root, t);
    assert Paints(t) == map[root := Paint(Black, 1)];
  }

  /** The new-key path of `insert`: a red leaf of black height 0 is hung in
      the free slot where the search for its key ended, and the tree is
      repaired from it. From a black root the repair does not raise and the
      root is black at the end; from a red-black tree it ends with one. */
  method InsertLeaf(t: BinaryTree, key: int, data: int, parent: Node, isLeft: bool)
      returns (r: Outcome<()>, ghost z: Node)
    requires t.Valid() && t.root != null && Find(t.shape, key) == null
    requires parent == Leaf(t.shape, key) && parent in t.Repr && isLeft == (key < parent.key)
    requires (if isLeft then parent.left else parent.right) == null
    modifies t, t.Repr`parent, t.Repr`left, t.Repr`right, t.Repr`tree, t.Repr`color, t.Repr`bh
    ensures t.Valid() && fresh(z) && z.key == key && z.data == data && t.Repr == old(t.Repr) + {z}
    ensures InOrder(t.shape) == InOrder(Attach(old(t.shape), z))
    ensures KeySet(t.shape) == old(KeySet(t.shape)) + {key}
    ensures r.Raise? ==> r.error == AttributeError
    ensures old(t.root.color) == Black ==> r.Ok? && t.root != null && t.root.color == Black
    ensures old(RedBlack(t.links, Paints(t), t.root)) ==> r.Ok? && RedBlack(t.links, Paints(t), t.root)
  {
    ghost var m, c := t.links, Paints(t);
    ghost var rb := RedBlack(m, c, t.root);
    FieldsAt(t, parent);
    var leaf := HookLeaf(t, key, data, parent, isLeft, Red, 0);
    z := leaf;
    PaintsGrown(t, z);
    if rb {
      HookKeeps(m, c, z, parent, isLeft);
    }
    ghost var s1 := t.shape;
    r := InsertFixup(t, leaf);
    SameKeys(s1, t.shape);
  }

  /** `insert` on a non-empty tree: a present key has its data overwritten
      and nothing else changes (`False`); a new key `z` is hung as a red leaf
      and the tree repaired (`True`, or the `AttributeError` the repair
      raises when a red node has no grandparent). */
  method Place(t: BinaryTree, key: int, data: int) returns (r: Outcome<bool>, ghost z: Node?)
    requires t.Valid() && t.root != null
    modifies t, t.Repr`data, t.Repr`parent, t.Repr`left, t.Repr`right, t.Repr`tree, t.Repr`color, t.Repr`bh
    ensures t.Valid() && KeySet(t.shape) == old(KeySet(t.shape)) + {key}
    ensures forall n :: n in old(t.Repr) && n.key != key ==> n.data == old(n.data)
    ensures key in old(KeySet(t.shape)) ==>
      r == Ok(false) && t.shape == old(t.shape) && t.Repr == old(t.Repr)
    ensures key !in old(KeySet(t.shape)) ==>
      (r == Ok(true) || r == Raise(AttributeError)) &&
      z != null && fresh(z) && z.key == key && z.data == data && t.Repr == old(t.Repr) + {z}
    ensures old(t.root.color) == Black ==> r.Ok? && t.root != null && t.root.color == Black
    ensures old(RedBlack(t.links, Paints(t), t.root)) ==> r.Ok? && RedBlack(t.links, Paints(t), t.root)
  {
    FindSpec(t.shape, key);
    z := null;
    var found, parent, isLeft := Locate(t, key);
    if found != null {
      Overwrite(t, found, data);
      PaintsKept(t);
      return Ok(false), z;
    }
    var fixed;
    fixed, z := InsertLeaf(t, key, data, parent, isLeft);
    r := if fixed.Raise? then Raise(fixed.error) else Ok(true);
  }

  /** `insert` as written: an empty tree gets a black root of black height 1
      and `True`; a present key has its data overwritten, nothing else
      changes, and `False` comes back; a new key `z` is hung as a red leaf
      and the tree repaired, and since that path has no `return` the caller
      gets `None` (or the `AttributeError` the repair raises when a red
      node has no grandparent, which a black root rules out). Every path
      keeps a red-black tree red-black. */
  method Insert(t: BinaryTree, key: int, data: int) returns (r: Outcome<Option<bool>>, ghost z: Node?)
    requires t.Valid()
    modifies t, t.Repr`data, t.Repr`parent, t.Repr`left, t.Repr`right, t.Repr`tree, t.Repr`color, t.Repr`bh
    ensures t.Valid() && KeySet(t.shape) == old(KeySet(t.shape)) + {key}
    ensures forall n :: n in old(t.Repr) && n.key != key ==> n.data == old(n.data)
    ensures old(t.root) == null ==>
      r == Ok(Some(true)) && t.Repr == {t.root} && t.root.key == key && t.root.color == Black && t.root.bh == 1
    ensures key in old(KeySet(t.shape)) ==>
      r == Ok(Some(false)) && t.shape == old(t.shape) && t.Repr == old(t.Repr)
    ensures old(t.root) != null && key !in old(KeySet(t.shape)) ==>
      (r == Ok(None) || r == Raise(AttributeError)) &&
      z != null && fresh(z) && z.key == key && z.data == data && t.Repr == old(t.Repr) + {z}
    ensures old(t.root == null || t.root.color == Black) ==> r.Ok? && t.root != null && t.root.color == Black
    ensures old(RedBlack(t.links, Paints(t), t.root)) ==> r.Ok? && RedBlack(t.links, Paints(t), t.root)
  {
    if t.root == null {
      InsertRoot(t, key, data);
      return Ok(Some(true)), null;
    }
    var placed;
    placed, z := Place(t, key, data);
    r := match placed
      case Ok(added) => if added then Ok(None) else Ok(Some(false))
      case Raise(e) => Raise(e);
  }

  /** `insert` as its documentation promises it: the same steps, with `True`
      returned for a new key, so the answer tells an insertion from an
      update in every case. */
  method InsertReturningTrue(t: BinaryTree, key: int, data: int) returns (r: Outcome<bool>)
    requires t.Valid()
    modifies t, t.Repr`data, t.Repr`parent, t.Repr`left, t.Repr`right, t.Repr`tree, t.Repr`color, t.Repr`bh
    ensures t.Valid() && KeySet(t.shape) == old(KeySet(t.shape)) + {key}
    ensures r.Ok? ==> (r.value <==> key !in old(KeySet(t.shape)))
    ensures r.Raise? ==> r.error == AttributeError && old(t.root) != null && key !in old(KeySet(t.shape))
    ensures forall n :: n in old(t.Repr) && n.key != key ==> n.data == old(n.data)
    ensures old(t.root == null || t.root.color == Black) ==> r.Ok? && t.root != null && t.root.color == Black
    ensures old(RedBlack(t.links, Paints(t), t.root)) ==> r.Ok? && RedBlack(t.links, Paints(t), t.root)
  {
    if t.root == null {
      InsertRoot(t, key, data);
      return Ok(true);
    }
    ghost var z;
    r, z := Place(t, key, data);
  }

  // ---------------------------------------------------------------------
  // _join

  /** A root that `_join` blackens: a red one turns black and gains one
      black level; a black one stays as it is. */
  function Darkened(k: Paint): Paint
  {
    if k.color == Red then Paint(Black, k.bh + 1) else k
  }

  /** The child `x` carries down while it sinks in `_join`: the left one
      when `onLeft`. */
  ghost function Carried(m: map<Node, Links>, x: Node, onLeft: bool): Node?
    requires x in m
  {
    if onLeft then m[x].left else m[x].right
  }

  /** A child slot read with `x` spliced out of the tree: `x` stands for
      the child it carries. */
  ghost function Skip(m: map<Node, Links>, x: Node, onLeft: bool, k: Node?): Node?
    requires x in m
  {
    if k == x then Carried(m, x, onLeft) else k
  }

  /** The rules at `n` against its children, `x` spliced out. */
  ghost predicate SkipRules(m: map<Node, Links>, c: map<Node, Paint>, x: Node, onLeft: bool, n: Node)
    requires x in m
  {
    Closed(m, n) && n in c && Local(c, c[n], Skip(m, x, onLeft, m[n].left), Skip(m, x, onLeft, m[n].right), null)
  }

  /** What `_join` keeps while `x` sinks: the rules at every other node,
      read with `x` spliced out of the tree. Rotating the carried child
      above `x` leaves that spliced tree as it was, and the colour of `x`
      plays no part. */
  ghost predicate Sunk(m: map<Node, Links>, c: map<Node, Paint>, x: Node, onLeft: bool)
  {
    m.Keys == c.Keys && Closed(m, x) &&
    forall n {:trigger SkipRules(m, c, x, onLeft, n)} :: n in m && n != x ==> SkipRules(m, c, x, onLeft, n)
  }

  /** Blackening the root `k` of a subtree of `x` keeps the rules below
      `x`. */
  lemma OffsideDarken(m: map<Node, Links>, c: map<Node, Paint>, x: Node, k: Node)
    requires Treelike(m) && Offside(m, c, x) && k in m && m[k].parent == x && k != x
    ensures Offside(m, c[k := Darkened(c[k])], x)
  {
    var c' := c[k := Darkened(c[k])];
    forall n | n in m && n != x
      ensures Rules(m, c', n, null)
    {
      assert Rules(m, c, n, null) && TreeAt(m, n);
    }
  }

  /** At the top of the tree, the rules below `x` are the spliced rules,
      whatever `x` is painted. */
  lemma OffsideSunk(m: map<Node, Links>, c: map<Node, Paint>, x: Node, onLeft: bool, k: Paint)
    requires Treelike(m) && Offside(m, c, x) && m[x].parent == null
    ensures Sunk(m, c, x, onLeft) && Sunk(m, c[x := k], x, onLeft)
  {
    var c' := c[x := k];
    forall n | n in m && n != x
      ensures SkipRules(m, c, x, onLeft, n) && SkipRules(m, c', x, onLeft, n)
    {
      assert Rules(m, c, n, null) && TreeAt(m, n);
    }
  }

  /** Rotating the carried child `k` above `x` keeps the spliced rules, and
      `x` then carries the inner child of `k`. Unless the loop of `_join`
      stops at `k` (black, black height at most `h`), that child still has
      black height at least `h`. */
  lemma SinkKeeps(m: map<Node, Links>, c: map<Node, Paint>, x: Node, onLeft: bool, h: int)
    requires Treelike(m) && Sunk(m, c, x, onLeft) && Carried(m, x, onLeft) != null
    requires var k := Carried(m, x, onLeft);
      m[x].parent != null ==> m[x].parent != k && m[x].parent != m[k].left && m[x].parent != m[k].right
    ensures var k := Carried(m, x, onLeft);
      Sunk(Rewire(m, k), c, x, onLeft) &&
      Carried(Rewire(m, k), x, onLeft) == (if onLeft then m[k].right else m[k].left)
    ensures var k := Carried(m, x, onLeft);
      BhOf(c, k) >= h && !(c[k].color == Black && c[k].bh <= h) ==>
      BhOf(c, Carried(Rewire(m, k), x, onLeft)) >= h
  {
    var k := Carried(m, x, onLeft);
    var m' := Rewire(m, k);
    var g := m[x].parent;
    assert TreeAt(m, x) && TreeAt(m, k);
    assert SkipRules(m, c, x, onLeft, k);
    if g != null {
      assert TreeAt(m, g);
    }
    RewireKeys(m, k);
    RewireAt(m, k);
    forall n | n in m' && n != x
      ensures SkipRules(m', c, x, onLeft, n)
    {
      assert SkipRules(m, c, x, onLeft, n) && TreeAt(m, n);
      if n != k && n != g {
        RewireElse(m, k, n);
      }
    }
  }

  /** When `x` has stopped with black children of its own black height,
      painting it red leaves the rules broken at most between `x` and a red
      parent: the state `_insert_fixup` repairs. */
  lemma SunkRepair(m: map<Node, Links>, c: map<Node, Paint>, x: Node, onLeft: bool, k: Paint)
    requires Treelike(m) && Sunk(m, c, x, onLeft) && k.color == Red
    requires BhOf(c, m[x].left) == k.bh && !IsRed(c, m[x].left)
    requires BhOf(c, m[x].right) == k.bh && !IsRed(c, m[x].right)
    ensures Repair(m, c[x := k], x)
    ensures x in c && c[x] == k ==> Repair(m, c, x)
  {
    var c' := c[x := k];
    if x in c && c[x] == k {
      assert c' == c;
    }
    assert TreeAt(m, x);
    forall n | n in m
      ensures Rules(m, c', n, x)
    {
      if n != x {
        assert SkipRules(m, c, x, onLeft, n) && TreeAt(m, n);
      }
    }
  }

  /** A black `x` one black level above two subtrees of equal black
      height, at the top of the tree, makes it a red-black tree. */
  lemma EvenKeeps(m: map<Node, Links>, c: map<Node, Paint>, x: Node, h: int)
    requires Treelike(m) && Offside(m, c, x) && m[x].parent == null
    requires h == 1 + BhOf(c, m[x].left) && h == 1 + BhOf(c, m[x].right)
    ensures RedBlack(m, c[x := Paint(Black, h)], x)
  {
    var c' := c[x := Paint(Black, h)];
    assert TreeAt(m, x);
    forall n | n in m
      ensures Rules(m, c', n, null)
    {
      if n != x {
        assert Rules(m, c, n, null) && TreeAt(m, n);
      }
    }
  }

  /** The black height a subtree root has once `_join` has blackened it. */
  ghost function Blackened(n: Node): int
    reads n
  {
    Darkened(Paint(n.color, n.bh)).bh
  }

  /** Below the top `x` of a tree that keeps the rules below `x`, no black
      height is negative and a black node has at least one black level. */
  lemma {:induction false} Grounded(t: BinaryTree, x: Node, n: Node)
    requires t.Valid() && x in t.Repr && x.parent == null && Offside(t.links, Paints(t), x)
    requires n in t.Repr && n != x
    ensures n.bh >= (if n.color == Black then 1 else 0)
    decreases Sub(t.shape, n)
  {
    NodeFacts(t, n);
    ChildFacts(t.shape, null, n);
    FieldsAt(t, n);
    assert Rules(t.links, Paints(t), n, null);
    if n.left != null {
      Grounded(t, x, n.left);
    }
    if n.right != null {
      Grounded(t, x, n.right);
    }
  }

  /** Before `x` sinks: it is the top of the tree and the child it is to
      carry is black, or the top is another node and black. */
  ghost predicate Anchored(t: BinaryTree, x: Node, onLeft: bool)
    reads t, x, t.Repr`color, t.Repr`bh
  {
    var k := if onLeft then x.left else x.right;
    var c := Paints(t);
    t.root != null &&
    ((t.root == x && k != null && k in c && c[k].color == Black) ||
     (t.root != x && t.root in c && c[t.root].color == Black))
  }

  /** One half of the first step of `_join`: `k`, a child of `x`, turns
      black, gaining a black level when it was red (`if t1 and t1.color ==
      RED`). The rules below `x` still hold. */
  method BlackenChild(t: BinaryTree, x: Node, k: Node)
    requires t.Valid() && x in t.Repr && (k == x.left || k == x.right)
    modifies k`color, k`bh
    ensures k.color == Black && k.bh == old(Blackened(k))
    ensures Paints(t) == old(Paints(t))[k := Paint(Black, old(Blackened(k)))]
    ensures old(Offside(t.links, Paints(t), x)) ==> Offside(t.links, Paints(t), x)
  {
    if k.color == Red {
      ChildOf(t, x);
      FieldsAt(t, k);
      ghost var c := Paints(t);
      if Offside(t.links, c, x) {
        Parented(t);
        FieldsAt(t, x);
        assert TreeAt(t.links, x);
        OffsideDarken(t.links, c, x, k);
      }
      Repaint(t, k, Paint(Black, k.bh + 1));
    } else {
      ChildOf(t, x);
      assert Paints(t)[k] == Paint(Black, k.bh);
    }
  }

  /** The first step of `_join`: the root of either subtree of `x` turns
      black, gaining a black level when it was red. The rules below `x`
      still hold. */
  method BlackenSides(t: BinaryTree, x: Node)
    requires t.Valid() && x in t.Repr
    modifies t.Repr`color, t.Repr`bh
    ensures x.left != null ==> x.left.color == Black && x.left.bh == old(Blackened(x.left))
    ensures x.right != null ==> x.right.color == Black && x.right.bh == old(Blackened(x.right))
    ensures x.color == old(x.color) && x.bh == old(x.bh)
    ensures old(Offside(t.links, Paints(t), x)) ==> Offside(t.links, Paints(t), x)
  {
    NodeFacts(t, x);
    FieldsAt(t, x);
    Parented(t);
    assert TreeAt(t.links, x);
    var t1 := x.left;
    if t1 != null {
      BlackenChild(t, x, t1);
    }
    var t2 := x.right;
    if t2 != null {
      BlackenChild(t, x, t2);
    }
  }

  /** A black `x` of black height `h` over its subtrees as they are: the
      two black cases of `_join`. At the top, over subtrees of black height
      `h - 1` that keep the rules, the tree is then red-black. */
  method Crown(t: BinaryTree, x: Node, h: int)
    requires t.Valid() && x in t.Repr
    modifies x`color, x`bh
    ensures x.color == Black && x.bh == h && Paints(t) == old(Paints(t))[x := Paint(Black, h)]
    ensures old(t.root == x && Offside(t.links, Paints(t), x)) &&
            h == 1 + old(BhOf(Paints(t), x.left)) && h == 1 + old(BhOf(Paints(t), x.right)) ==>
      RedBlack(t.links, Paints(t), t.root)
  {
    ghost var c := Paints(t);
    if t.root == x && Offside(t.links, c, x) && h == 1 + BhOf(c, x.left) && h == 1 + BhOf(c, x.right) {
      Parented(t);
      FieldsAt(t, x);
      EvenKeeps(t.links, c, x, h);
    }
    Repaint(t, x, Paint(Black, h));
  }

  /** At the top of a tree that keeps the rules below `x`, the spliced
      rules hold, whatever `x` is painted. */
  lemma TopSunk(t: BinaryTree, x: Node, onLeft: bool, k: Paint)
    requires t.Valid() && x in t.Repr && t.root == x && Offside(t.links, Paints(t), x)
    ensures Sunk(t.links, Paints(t), x, onLeft) && Sunk(t.links, Paints(t)[x := k], x, onLeft)
  {
    Parented(t);
    IsRoot(t, x);
    FieldsAt(t, x);
    OffsideSunk(t.links, Paints(t), x, onLeft, k);
  }

  /** `SunkRepair` read on the fields of a valid tree. */
  lemma SunkReady(t: BinaryTree, x: Node, onLeft: bool, k: Paint)
    requires t.Valid() && x in t.Repr && Sunk(t.links, Paints(t), x, onLeft) && k.color == Red
    requires BhOf(Paints(t), x.left) == k.bh && !IsRed(Paints(t), x.left)
    requires BhOf(Paints(t), x.right) == k.bh && !IsRed(Paints(t), x.right)
    ensures Repair(t.links, Paints(t)[x := k], x)
    ensures x.color == k.color && x.bh == k.bh ==> Repair(t.links, Paints(t), x)
  {
    Parented(t);
    FieldsAt(t, x);
    SunkRepair(t.links, Paints(t), x, onLeft, k);
  }

  /** `SunkReady` for the node `SinkTo` stops at: a black child of black
      height `h` on the side `onLeft`. */
  lemma DescentReady(t: BinaryTree, x: Node, onLeft: bool, h: int)
    requires t.Valid() && x in t.Repr && Sunk(t.links, Paints(t), x, onLeft)
    requires var c := if onLeft then x.left else x.right; c != null && c.color == Black && c.bh == h
    requires var f := if onLeft then x.right else x.left; BhOf(Paints(t), f) == h && !IsRed(Paints(t), f)
    ensures Repair(t.links, Paints(t)[x := Paint(Red, h)], x)
  {
    NodeFacts(t, x);
    var c := if onLeft then x.left else x.right;
    NodeFacts(t, c);
    SunkReady(t, x, onLeft, Paint(Red, h));
  }

  /** `x` missing the child on the side opposite `onLeft` sinks until it is
      a leaf (`while x.right: x.right.rotate()` and its mirror image) and
      turns red with black height 0. At the top, over a black subtree that
      keeps the rules, this leaves the state an insertion repair starts
      from. */
  method Lean(t: BinaryTree, x: Node, onLeft: bool)
    requires t.Valid() && x in t.Repr && (if onLeft then x.right else x.left) == null
    modifies t, t.Repr`parent, t.Repr`left, t.Repr`right, t.Repr`tree, x`color, x`bh
    ensures t.Valid() && t.Repr == old(t.Repr) && InOrder(t.shape) == old(InOrder(t.shape))
    ensures x.left == null && x.right == null && x.color == Red && x.bh == 0
    ensures old(t.root == x && Offside(t.links, Paints(t), x) && Anchored(t, x, onLeft)) ==>
      RootReady(t, x) && Repair(t.links, Paints(t), x)
  {
    ghost var ok := t.root == x && Offside(t.links, Paints(t), x) && Anchored(t, x, onLeft);
    if ok {
      TopSunk(t, x, onLeft, Paint(Red, 0));
    }
    SinkAll(t, x, onLeft);
    if ok {
      SunkReady(t, x, onLeft, Paint(Red, 0));
    }
    Repaint(t, x, Paint(Red, 0));
  }

  /** `x` turns red with black height `h` and sinks along the inner edge of
      its subtree on the side `onLeft` until the child there is black of
      black height at most `h`. At the top, over black subtrees that keep
      the rules, the far one of black height `h >= 1` and the near one
      higher, the walk stops at a black node of black height exactly `h`
      and leaves the state an insertion repair starts from. */
  method Descent(t: BinaryTree, x: Node, h: int, onLeft: bool, ghost top: bool) returns (r: Outcome<()>)
    requires t.Valid() && x in t.Repr
    requires top ==> t.root == x && Offside(t.links, Paints(t), x) && Anchored(t, x, onLeft)
    requires top ==> BhOf(Paints(t), if onLeft then x.left else x.right) >= h >= 1
    requires top ==> BhOf(Paints(t), if onLeft then x.right else x.left) == h
    requires top ==> !IsRed(Paints(t), if onLeft then x.right else x.left)
    modifies t, t.Repr`parent, t.Repr`left, t.Repr`right, t.Repr`tree, x`color, x`bh
    ensures t.Valid() && t.Repr == old(t.Repr) && InOrder(t.shape) == old(InOrder(t.shape))
    ensures x.color == Red && x.bh == h
    ensures r.Raise? ==> r.error == AttributeError
    ensures top ==> r.Ok? && RootReady(t, x) && Repair(t.links, Paints(t), x)
  {
    if top {
      TopSunk(t, x, onLeft, Paint(Red, h));
    }
    r := SinkTo(t, x, h, onLeft);
    if r.Ok? && top {
      DescentReady(t, x, onLeft, h);
    }
    Repaint(t, x, Paint(Red, h));
  }

  /** The case analysis of `_join` once both subtree roots are black. */
  method Descend(t: BinaryTree, x: Node) returns (r: Outcome<()>)
    requires t.Valid() && x in t.Repr
    requires x.left != null ==> x.left.color == Black
    requires x.right != null ==> x.right.color == Black
    modifies t, t.Repr`parent, t.Repr`left, t.Repr`right, t.Repr`tree, t.Repr`color, t.Repr`bh
    ensures t.Valid() && t.Repr == old(t.Repr) && InOrder(t.shape) == old(InOrder(t.shape))
    ensures r.Raise? ==> r.error == AttributeError
    ensures old(x.left) == null && old(x.right) == null ==>
      r.Ok? && t.shape == old(t.shape) && x.color == Black && x.bh == 1
    ensures old(x.left) != null && old(x.right) != null && old(x.left.bh) == old(x.right.bh) ==>
      r.Ok? && t.shape == old(t.shape) && x.color == Black && x.bh == old(x.left.bh) + 1 &&
      old(x.left).color == Black && old(x.right).color == Black
    ensures old(t.root == x && Offside(t.links, Paints(t), x)) ==>
      r.Ok? && RootReady(t, x) &&
      (x.color == Red ==> Repair(t.links, Paints(t), x)) &&
      (x.color == Black ==> RedBlack(t.links, Paints(t), t.root))
  {
    ChildOf(t, x);
    var t1 := x.left;
    var t2 := x.right;
    if t1 == null && t2 == null {
      Crown(t, x, 1);
      r := Ok(());
    } else if t1 == null {
      Lean(t, x, false);
      r := Ok(());
    } else if t2 == null {
      Lean(t, x, true);
      r := Ok(());
    } else if t1.bh == t2.bh {
      Crown(t, x, t1.bh + 1);
      r := Ok(());
    } else if t1.bh > t2.bh {
      if t.root == x && Offside(t.links, Paints(t), x) {
        IsRoot(t, x);
        Grounded(t, x, t2);
      }
      r := Descent(t, x, t2.bh, true, t.root == x && Offside(t.links, Paints(t), x));
    } else {
      if t.root == x && Offside(t.links, Paints(t), x) {
        IsRoot(t, x);
        Grounded(t, x, t1);
      }
      r := Descent(t, x, t1.bh, false, t.root == x && Offside(t.links, Paints(t), x));
    }
  }

  /** No node lies deeper than the tree has nodes. */
  lemma DepthBelowCount(t: BinaryTree, x: Node)
    requires t.Valid() && x in t.Repr
    ensures Depth(t.shape, x) < |t.Repr|
  {
    DepthBelowSize(t.shape, x);
    SizeIsCard(t.shape);
  }

  /** `x.left.rotate()` (or `x.right.rotate()`): the child on the side
      `onLeft` names rises above `x`, `x` sinks one level and adopts that
      child's inner subtree, and its other child stays. No colour changes. */
  method RaiseChild(t: BinaryTree, x: Node, onLeft: bool)
    requires t.Valid() && x in t.Repr && (if onLeft then x.left else x.right) != null
    modifies t, t.Repr`parent, t.Repr`left, t.Repr`right, t.Repr`tree
    ensures t.Valid() && t.Repr == old(t.Repr) && InOrder(t.shape) == old(InOrder(t.shape))
    ensures t.links == Rewire(old(t.links), old(if onLeft then x.left else x.right))
    ensures Paints(t) == old(Paints(t))
    ensures t.root == if old(x.parent) == null then old(if onLeft then x.left else x.right) else old(t.root)
    ensures Depth(t.shape, x) == old(Depth(t.shape, x)) + 1
    ensures onLeft ==> x.left == old(x.left.right) && x.right == old(x.right)
    ensures !onLeft ==> x.right == old(x.right.left) && x.left == old(x.left)
  {
    var c := if onLeft then x.left else x.right;
    ChildOf(t, x);
    DepthStep(t, c);
    Lift(c, t);
    DepthStep(t, x);
    PaintsKept(t);
  }

  /** One round of the sinking loop of `_join`, read on the fields before
      it: rotating the carried child `k` keeps the spliced rules and, unless
      the loop stops at `k`, the next carried child has black height at
      least `h`. */
  lemma SinkReady(t: BinaryTree, x: Node, onLeft: bool, h: int)
    requires t.Valid() && x in t.Repr && (if onLeft then x.left else x.right) != null
    requires Sunk(t.links, Paints(t), x, onLeft)
    ensures var k := if onLeft then x.left else x.right;
      Sunk(Rewire(t.links, k), Paints(t), x, onLeft) &&
      (BhOf(Paints(t), k) >= h && !(k.color == Black && k.bh <= h) ==>
       BhOf(Paints(t), if onLeft then k.right else k.left) >= h)
  {
    var k := if onLeft then x.left else x.right;
    Parented(t);
    NodeFacts(t, x);
    FieldsAt(t, x);
    FieldsAt(t, k);
    RotatePre(t, k);
    SinkKeeps(t.links, Paints(t), x, onLeft, h);
  }

  /** One round of the sinking loops of `_join`: the carried child is
      rotated above `x`. The spliced rules stay, a carried child the loop
      of `SinkTo` does not stop at passes its bound to the next, and an
      anchored tree stays anchored (after the first round its top is the
      black child `x` carried). */
  method SinkStep(t: BinaryTree, x: Node, onLeft: bool, h: int)
    requires t.Valid() && x in t.Repr && (if onLeft then x.left else x.right) != null
    modifies t, t.Repr`parent, t.Repr`left, t.Repr`right, t.Repr`tree
    ensures t.Valid() && t.Repr == old(t.Repr) && InOrder(t.shape) == old(InOrder(t.shape))
    ensures Paints(t) == old(Paints(t))
    ensures old(Depth(t.shape, x)) < Depth(t.shape, x) < |t.Repr|
    ensures onLeft ==> x.left == old(x.left.right) && x.right == old(x.right)
    ensures !onLeft ==> x.right == old(x.right.left) && x.left == old(x.left)
    ensures old(Sunk(t.links, Paints(t), x, onLeft)) ==> Sunk(t.links, Paints(t), x, onLeft)
    ensures old(var k := if onLeft then x.left else x.right;
                Sunk(t.links, Paints(t), x, onLeft) && BhOf(Paints(t), k) >= h && !(k.color == Black && k.bh <= h)) ==>
      BhOf(Paints(t), if onLeft then x.left else x.right) >= h
    ensures old(Anchored(t, x, onLeft)) ==> Anchored(t, x, onLeft)
  {
    var c := if onLeft then x.left else x.right;
    if Sunk(t.links, Paints(t), x, onLeft) {
      SinkReady(t, x, onLeft, h);
    }
    IsRoot(t, x);
    ghost var top, r0 := t.root == x, t.root;
    RaiseChild(t, x, onLeft);
    DepthBelowCount(t, x);
    IsRoot(t, x);
    assert t.root == (if top then c else r0) && t.root != x;
  }

  /** `while x.right: x.right.rotate()` when `x` has no left child (and the
      mirror image): `x` sinks until it is a leaf. */
  method SinkAll(t: BinaryTree, x: Node, onLeft: bool)
    requires t.Valid() && x in t.Repr && (if onLeft then x.right else x.left) == null
    modifies t, t.Repr`parent, t.Repr`left, t.Repr`right, t.Repr`tree
    ensures t.Valid() && t.Repr == old(t.Repr) && InOrder(t.shape) == old(InOrder(t.shape))
    ensures Paints(t) == old(Paints(t))
    ensures x.left == null && x.right == null
    ensures old(Sunk(t.links, Paints(t), x, onLeft)) ==> Sunk(t.links, Paints(t), x, onLeft)
    ensures old(Anchored(t, x, onLeft)) ==> RootReady(t, x)
  {
    ghost var sunk := Sunk(t.links, Paints(t), x, onLeft);
    ghost var anchored := Anchored(t, x, onLeft);
    DepthBelowCount(t, x);
    while (if onLeft then x.left else x.right) != null
      invariant t.Valid() && t.Repr == old(t.Repr) && InOrder(t.shape) == old(InOrder(t.shape))
      invariant Paints(t) == old(Paints(t))
      invariant x in t.Repr && (if onLeft then x.right else x.left) == null
      invariant Depth(t.shape, x) < |t.Repr|
      invariant sunk ==> Sunk(t.links, Paints(t), x, onLeft)
      invariant anchored ==> Anchored(t, x, onLeft)
      decreases |t.Repr| - Depth(t.shape, x)
    {
      SinkStep(t, x, onLeft, 0);
    }
  }

  /** `while x.left.bh > h or x.left.color == RED: x.left.rotate()` (and
      the mirror image): `x` sinks along the inner edge of its subtree on
      that side until the child there is black with black height at most
      `h`; the child on the other side stays. Reading a missing child's
      fields raises `AttributeError`. When the child there starts with
      black height at least `h >= 1` in a tree that keeps the spliced
      rules, the walk ends at a black node of black height exactly `h`.
      Each round of the loop is one `SinkStep` followed by the rest of the
      walk. */
  method SinkTo(t: BinaryTree, x: Node, h: int, onLeft: bool) returns (r: Outcome<()>)
    requires t.Valid() && x in t.Repr
    modifies t, t.Repr`parent, t.Repr`left, t.Repr`right, t.Repr`tree
    ensures t.Valid() && t.Repr == old(t.Repr) && InOrder(t.shape) == old(InOrder(t.shape))
    ensures Paints(t) == old(Paints(t))
    ensures r.Raise? ==> r.error == AttributeError
    ensures onLeft ==> x.right == old(x.right)
    ensures !onLeft ==> x.left == old(x.left)
    ensures r.Ok? ==> (var c := if onLeft then x.left else x.right; c != null && c.color == Black && c.bh <= h)
    ensures old(Sunk(t.links, Paints(t), x, onLeft)) ==> Sunk(t.links, Paints(t), x, onLeft)
    ensures old(Sunk(t.links, Paints(t), x, onLeft) && BhOf(Paints(t), if onLeft then x.left else x.right) >= h >= 1) ==>
      r.Ok? && (if onLeft then x.left else x.right).bh == h
    ensures old(Anchored(t, x, onLeft)) ==> RootReady(t, x)
    decreases |t.Repr| - Depth(t.shape, x)
  {
    DepthBelowCount(t, x);
    var c := if onLeft then x.left else x.right;
    if c == null {
      return Raise(AttributeError);
    }
    if c.bh <= h && c.color != Red {
      return Ok(());
    }
    SinkStep(t, x, onLeft, h);
    r := SinkTo(t, x, h, onLeft);
  }

  /** `_join` at a node `x` whose two subtrees are red-black trees: both
      subtree roots are blackened; a node without children becomes black of
      black height 1; a node missing one subtree sinks to a leaf and turns
      red; subtrees of equal black height hang under a black `x` one black
      level higher; otherwise a red `x` sinks along the inner edge of the
      higher subtree to a black node of the lower one's black height. A
      red `x` is then repaired as after an insertion. The in-order sequence
      is never changed; `None` for `x`, a missing node on the way down and
      a repair that runs out of grandparents raise `AttributeError`. At the
      top of a tree whose two subtrees keep the rules (their roots may be
      red), none of these raises and the result is a red-black tree. */
  method Join(t: BinaryTree, x: Node?) returns (r: Outcome<()>)
    requires t.Valid() && (x != null ==> x in t.Repr)
    modifies t, t.Repr`parent, t.Repr`left, t.Repr`right, t.Repr`tree, t.Repr`color, t.Repr`bh
    ensures t.Valid() && t.Repr == old(t.Repr) && InOrder(t.shape) == old(InOrder(t.shape))
    ensures r.Raise? ==> r.error == AttributeError
    ensures x == null ==> r.Raise?
    ensures x != null && old(x.left) == null && old(x.right) == null ==>
      r.Ok? && t.shape == old(t.shape) && x.color == Black && x.bh == 1
    ensures (x != null && old(x.left) != null && old(x.right) != null &&
             old(Blackened(x.left)) == old(Blackened(x.right))) ==>
        r.Ok? && t.shape == old(t.shape) && x.color == Black && x.bh == old(Blackened(x.left)) + 1 &&
        old(x.left).color == Black && old(x.right).color == Black
    ensures x != null && old(t.root) == x && old(Offside(t.links, Paints(t), x)) ==>
      r.Ok? && RedBlack(t.links, Paints(t), t.root)
  {
    if x == null {
      return Raise(AttributeError);
    }
    BlackenSides(t, x);
    r := Descend(t, x);
    if r.Ok? && x.color == Red {
      r := InsertFixup(t, x);
    }
  }

  // ---------------------------------------------------------------------
  // split

  /** `split(key)`: the node holding `key` is found by the search walk
      (`KeyError` when there is none, the empty tree included) and rotated
      up to the root one level at a time; after each rotation the old
      parent, now its child, is re-joined with `Join`. An `AttributeError`
      from a join ends the split. How many rounds the loop takes is not
      bounded here: `fuel` caps them and `OutOfFuel` reports the cap. On
      success the key is at the root, and the in-order sequence is never
      changed. */
  method Split(t: BinaryTree, key: int, fuel: nat) returns (r: Outcome<()>)
    requires t.Valid()
    modifies t, t.Repr`parent, t.Repr`left, t.Repr`right, t.Repr`tree, t.Repr`color, t.Repr`bh
    ensures t.Valid() && t.Repr == old(t.Repr) && InOrder(t.shape) == old(InOrder(t.shape))
    ensures r == Raise(KeyError) <==> key !in old(KeySet(t.shape))
    ensures r.Raise? ==> r.error == KeyError || r.error == AttributeError || r.error == OutOfFuel
    ensures r.Ok? ==> t.root != null && t.root.key == key
  {
    FindSpec(t.shape, key);
    if t.root == null {
      return Raise(KeyError);
    }
    var p, parent, isLeft := Locate(t, key);
    if p == null {
      return Raise(KeyError);
    }
    var f := fuel;
    while p != t.root
      invariant t.Valid() && t.Repr == old(t.Repr) && InOrder(t.shape) == old(InOrder(t.shape))
      invariant p in t.Repr && p.key == key
      decreases f
    {
      if f == 0 {
        return Raise(OutOfFuel);
      }
      f := f - 1;
      IsRoot(t, p);
      var wasLeft := p == p.parent.left;
      Lift(p, t);
      ChildOf(t, p);
      var j: Outcome<()>;
      if wasLeft {
        j := Join(t, p.right);
      } else {
        j := Join(t, p.left);
      }
      if j.Raise? {
        return j;
      }
    }
    return Ok(());
  }
}
