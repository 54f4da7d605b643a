/// The auxiliary trees of a Tango tree as a forest of pointer records. A
/// marked node (its `is_root` flag set) starts an auxiliary tree of its own,
/// so reading the pointer fields with every edge into a marked node removed
/// gives one separate tree per auxiliary tree. The red-black rules of
/// `RedBlack` are read on that forest: an auxiliary tree is a red-black tree
/// when they hold on its part of the forest and its marked root is black.
module AuxForest {
  import opened BinTree
  import opened Rotation
  import opened RedBlack
  import opened AuxTrees

  /** A child slot with an edge into a marked node removed
      (`is_root_or_None` reads such a child as missing). */
  function Cut(M: set<Node>, k: Node?): Node?
  {
    if k != null && k in M then null else k
  }

  /** The pointer record `m` with every edge into a marked node removed: a
      marked node has no parent and no node has a marked child. The `tree`
      field plays no part in the rules and is dropped. */
  ghost function View(m: map<Node, Links>, M: set<Node>): map<Node, Links>
  {
    map n | n in m :: Links(if n in M then null else m[n].parent, Cut(M, m[n].left), Cut(M, m[n].right), null)
  }

  /** Every marked node but `p` is black: the root of each auxiliary tree,
      except perhaps the one a repair is working on. */
  ghost predicate TopsBlack(M: set<Node>, c: map<Node, Paint>, p: Node?)
  {
    forall n :: n in M && n != p ==> n in c && c[n].color == Black
  }

  /** The recolouring case paints two unmarked nodes black and moves the
      exemption to the grandparent `g`. */
  lemma TopsRecoloured(M: set<Node>, c: map<Node, Paint>, p: Node, q: Node, y: Node, g: Node)
    requires TopsBlack(M, c, p) && p !in M && q !in M && y !in M && q in c && y in c && g in c
    ensures TopsBlack(M, Recoloured(c, q, y, g), g)
  {
  }

  /** The promoting case paints the unmarked parent `u` black, reddens
      the grandparent `g` and exchanges their marks: the repair stays at the
      unmarked `x`. */
  lemma TopsPromoted(M: set<Node>, c: map<Node, Paint>, x: Node, u: Node, g: Node)
    requires TopsBlack(M, c, x) && x !in M && u !in M && u in c && g in c && u != g && x != u
    ensures TopsBlack(Swapped(M, u, g), Promoted(c, u, g), x)
  {
  }

  /** The promoting case on the forest: the unmarked parent `u` of `x`
      rotates above the grandparent `g` and takes over its mark. The repair
      proved on the rotated forest holds on the forest of the rotated
      record, and the marked nodes but `x` stay black. */
  lemma PromotedForest(m: map<Node, Links>, M: set<Node>, c: map<Node, Paint>, x: Node, u: Node, g: Node)
    requires Pivot(m, u) && m[u].parent == g && u !in M && x !in M && x != u && u != g && u in c && g in c
    requires TopsBlack(M, c, x) && Repair(Rewire(View(m, M), u), Promoted(c, u, g), x)
    ensures Repair(View(Rewire(m, u), Swapped(M, u, g)), Promoted(c, u, g), x)
    ensures TopsBlack(Swapped(M, u, g), Promoted(c, u, g), x)
  {
    ViewRotate(m, M, u);
    TopsPromoted(M, c, x, u, g);
  }

  /** `_aux_concatenate` blackens both children of `x`: a marked child is
      already black, and an unmarked one is a subtree root of the forest
      below `x`, where blackening keeps the rules. */
  lemma DarkenForest(m: map<Node, Links>, M: set<Node>, c: map<Node, Paint>, x: Node, k: Node)
    requires Treelike(m) && k in m && m[k].parent == x && k != x
    requires Offside(View(m, M), c, x) && TopsBlack(M, c, x)
    ensures k in c
    ensures Offside(View(m, M), c[k := Darkened(c[k])], x) && TopsBlack(M, c[k := Darkened(c[k])], x)
  {
    var v := View(m, M);
    assert k in v;
    if k in M {
      assert c[k := Darkened(c[k])] == c;
    } else {
      ViewTreelike(m, M);
      OffsideDarken(v, c, x, k);
    }
  }

  /** One round of the sinking loops of `_aux_concatenate` on the forest:
      the unmarked child `k` that `x` carries rotates above `x` and takes
      over its mark. On the forest this is the rotation `SinkKeeps` is
      about, so the spliced rules stay and a carried child the loop does
      not stop at passes its bound on to the next; `x` is unmarked after
      it, and a marked `x` hands its mark to a black `k`. */
  lemma SinkForest(m: map<Node, Links>, M: set<Node>, c: map<Node, Paint>, x: Node, onLeft: bool, h: int)
    requires x in m && Carried(m, x, onLeft) != null
    requires var k := Carried(m, x, onLeft);
      Pivot(m, k) && m[k].parent == x && k !in M &&
      (m[x].parent != null ==> m[x].parent != m[k].left && m[x].parent != m[k].right)
    requires Sunk(View(m, M), c, x, onLeft) && TopsBlack(M, c, x)
    requires var k := Carried(m, x, onLeft); x in M ==> k in c && c[k].color == Black
    ensures var k := Carried(m, x, onLeft); var m', M' := Rewire(m, k), Swapped(M, k, x);
      Sunk(View(m', M'), c, x, onLeft) && TopsBlack(M', c, x) && x !in M'
    ensures var k := Carried(m, x, onLeft); var m', M' := Rewire(m, k), Swapped(M, k, x);
      BhOf(c, k) >= h && k in c && !(c[k].color == Black && c[k].bh <= h) ==>
      BhOf(c, Carried(View(m', M'), x, onLeft)) >= h
  {
    var k := Carried(m, x, onLeft);
    var v := View(m, M);
    ViewTreelike(m, M);
    assert Carried(v, x, onLeft) == k;
    SinkKeeps(v, c, x, onLeft, h);
    ViewRotate(m, M, k);
  }

  /** Exchanging the marks of two nodes leaves every other node's mark. */
  lemma SwappedOther(M: set<Node>, x: Node, q: Node, n: Node)
    requires n != x && n != q
    ensures n in Swapped(M, x, q) <==> n in M
  {
  }

  /** Exchanging the marks of two unmarked nodes changes nothing. */
  lemma SwappedUnmarked(M: set<Node>, x: Node, q: Node)
    requires x !in M && q !in M
    ensures Swapped(M, x, q) == M
  {
  }

  /** Removing edges keeps a record that fits a tree. */
  lemma ViewTreelike(m: map<Node, Links>, M: set<Node>)
    requires Treelike(m)
    ensures Treelike(View(m, M))
  {
    var v := View(m, M);
    forall n | n in v
      ensures TreeAt(v, n)
    {
      assert TreeAt(m, n);
      var par := m[n].parent;
      if par != null && n !in M {
        assert TreeAt(m, par);
      }
    }
  }

  /** The nodes a rotation of `x` touches are distinct where it matters:
      `x`, its parent `q`, its grandparent `g` and the inner child `b` that
      moves from `x` to `q`. */
  ghost predicate Pivot(m: map<Node, Links>, x: Node)
  {
    Treelike(m) && x in m && m[x].parent != null && m[x].parent in m &&
    var q := m[x].parent; var g := m[q].parent;
    var b := if m[q].left == x then m[x].right else m[x].left;
    q != x && g != x && (g != null ==> g != q) && (b != null ==> b != q && b != g)
  }

  /** The entries a rotation of `x` writes, field by field: `x` takes the
      place of its parent `q`, `q` hangs below `x` with the inner child `b`,
      and the grandparent `g` points at `x`. Every other entry is kept. */
  lemma RewireFields(m: map<Node, Links>, x: Node, n: Node)
    requires Pivot(m, x) && n in m
    ensures var q := m[x].parent; var g := m[q].parent; var r := Rewire(m, x);
      var left := m[q].left == x;
      var b := if left then m[x].right else m[x].left;
      n in r &&
      r[n].parent == (if n == x then g else if n == q then x else if n == b then q else m[n].parent) &&
      r[n].left == (if n == x then (if left then m[x].left else q) else if n == q then (if left then b else m[q].left)
                    else if n == g && m[g].left == q then x else m[n].left) &&
      r[n].right == (if n == x then (if left then q else m[x].right) else if n == q then (if left then m[q].right else b)
                     else if n == g && m[g].left != q then x else m[n].right) &&
      (r[n].tree == null || r[n].tree == m[n].tree || r[n].tree == m[q].tree)
  {
    var q := m[x].parent;
    assert TreeAt(m, x) && TreeAt(m, q);
    if m[q].parent != null {
      assert TreeAt(m, m[q].parent);
    }
  }

  /** One entry of the rotated forest. */
  lemma ViewRotateAt(m: map<Node, Links>, M: set<Node>, x: Node, n: Node)
    requires Pivot(m, x) && x !in M && n in m
    ensures View(Rewire(m, x), Swapped(M, x, m[x].parent))[n] == Rewire(View(m, M), x)[n]
  {
    var v := View(m, M);
    var q := m[x].parent;
    ViewTreelike(m, M);
    assert TreeAt(m, x) && TreeAt(m, q);
    if m[q].parent != null {
      assert TreeAt(m, m[q].parent);
    }
    assert v[x].parent == q;
    assert Pivot(v, x);
    RewireFields(m, x, n);
    RewireFields(v, x, n);
    RewireKeys(m, x);
    var r := Rewire(m, x);
    var M' := Swapped(M, x, q);
    var lhs := View(r, M');
    var rhs := Rewire(v, x);
    assert lhs[n].tree == rhs[n].tree;
    assert lhs[n].parent == rhs[n].parent;
    assert TreeAt(m, n);
    assert forall k: Node :: k != x && k != q ==> Cut(M', k) == Cut(M, k);
    assert Cut(M', q) == q;
    assert lhs[n].left == rhs[n].left;
    assert lhs[n].right == rhs[n].right;
  }

  /** Rotating an unmarked node `x` above its parent `q`, with the marks of
      the two exchanged, is on the forest the same rotation: the forest of
      the rotated record under the exchanged marks is the rotated forest. */
  lemma ViewRotate(m: map<Node, Links>, M: set<Node>, x: Node)
    requires Pivot(m, x) && x !in M
    ensures View(Rewire(m, x), Swapped(M, x, m[x].parent)) == Rewire(View(m, M), x)
  {
    var lhs := View(Rewire(m, x), Swapped(M, x, m[x].parent));
    var rhs := Rewire(View(m, M), x);
    RewireKeys(m, x);
    RewireKeys(View(m, M), x);
    forall n | n in m
      ensures lhs[n] == rhs[n]
    {
      ViewRotateAt(m, M, x, n);
    }
  }
}
