/// The Day/Stout/Warren rebalancing of bstvis/algorithm/dsw.py: rotate every
/// left child up until the tree is a right-leaning chain (a vine), then
/// rotate every other node of that chain up, in rounds, to fold it into a
/// balanced tree.
///
/// The shape side is described by the right spine of a tree: `Spine` is its
/// length, `Drop(t, k)` the subtree reached by going right `k` times, and
/// `CompressShape(t, k)` the shape after `compress(t.root, k)`.
module Dsw {
  import opened BinTree
  import opened Rotation
  import opened Bits

  // ---------------------------------------------------------------------
  // The right spine

  /** The number of nodes on the path that always goes right from the top. */
  ghost function Spine(t: Tree): nat
  {
    match t
    case Nil => 0
    case Br(_, _, r) => 1 + Spine(r)
  }

  /** A vine: no node has a left child. */
  ghost predicate IsVine(t: Tree)
  {
    match t
    case Nil => true
    case Br(l, _, r) => l.Nil? && IsVine(r)
  }

  /** The subtree reached from the top by going right `k` times. */
  ghost function Drop(t: Tree, k: nat): Tree
  {
    if k == 0 then t
    else match t
      case Nil => Nil
      case Br(_, _, r) => Drop(r, k - 1)
  }

  /** One more step right is the right subtree of the last one. */
  lemma {:induction false} DropNext(t: Tree, k: nat)
    ensures Drop(t, k + 1) == if Drop(t, k).Nil? then Nil else Drop(t, k).right
  {
    if k > 0 && t.Br? {
      DropNext(t.right, k - 1);
    }
  }

  /** The spine reaches `k` steps down exactly when it is longer than `k`. */
  lemma {:induction false} DropSpine(t: Tree, k: nat)
    ensures Drop(t, k).Br? <==> k < Spine(t)
  {
    if k > 0 && t.Br? {
      DropSpine(t.right, k - 1);
    }
  }

  /** A vine is all spine. */
  lemma {:induction false} VineSpine(t: Tree)
    requires IsVine(t)
    ensures Spine(t) == Size(t)
  {
    if t.Br? {
      VineSpine(t.right);
    }
  }

  /** The node `k` steps down the spine heads its own subtree, its parent is
      the node one step up (or `par` at the top), and below the top its nodes
      lie in the right subtree. */
  lemma {:induction false} DropSub(t: Tree, k: nat, par: Node?)
    requires Distinct(t) && Drop(t, k).Br?
    ensures Nodes(Drop(t, k)) <= Nodes(t) && Size(Drop(t, k)) <= Size(t)
    ensures k >= 1 ==> Nodes(Drop(t, k)) <= Nodes(t.right)
    ensures Sub(t, Drop(t, k).node) == Drop(t, k)
    ensures k >= 1 ==> Drop(t, k - 1).Br?
    ensures ParentIn(t, Drop(t, k).node, par) == if k == 0 then par else Top(Drop(t, k - 1))
  {
    if k > 0 {
      var r := t.right;
      DropSub(r, k - 1, t.node);
      assert Drop(t, k) == Drop(r, k - 1);
    }
  }

  // ---------------------------------------------------------------------
  // Phase 1: the vine

  /** Rotating up the left child of the node `k` steps down the spine leaves
      the spine above untouched and puts the child in the node's place, with
      the node as its right child. */
  lemma {:induction false} VineRotate(t: Tree, k: nat)
    requires Distinct(t) && Drop(t, k).Br? && Drop(t, k).left.Br?
    ensures var d := Drop(t, k);
      Drop(RotateUp(t, d.left.node), k) == Br(d.left.left, d.left.node, Br(d.left.right, d.node, d.right))
  {
    var d := Drop(t, k);
    var x := d.left.node;
    if k > 0 {
      var r := t.right;
      DropSub(t, k, null);
      DropSub(r, k - 1, t.node);
      assert x in Nodes(r);
      assert x != r.node;
      VineRotate(r, k - 1);
    }
  }

  /** Phase 1 of `dsw`: go to the maximum, then walk back up the right spine,
      rotating up every left child of the node in hand until it has none.
      The result is a vine with the same in-order sequence; `n` counts its
      nodes. */
  method Vine(t: BinaryTree) returns (n: nat)
    requires t.Valid() && t.root != null
    modifies t, t.Repr`parent, t.Repr`left, t.Repr`right, t.Repr`tree
    ensures t.Valid() && t.Repr == old(t.Repr)
    ensures InOrder(t.shape) == old(InOrder(t.shape))
    ensures IsVine(t.shape) && n == Size(t.shape)
  {
    var p, k := ToMax(t);
    n := 1;
    while p.left != null || p.parent != null
      invariant t.Valid() && t.Repr == old(t.Repr) && InOrder(t.shape) == old(InOrder(t.shape))
      invariant p in t.Repr && VineBelow(t.shape, p, k, n)
      invariant Size(t.shape) == old(Size(t.shape)) && n <= Size(t.shape)
      decreases Size(t.shape) - n + if p.left != null || p.parent != null then 1 else 0
    {
      k := ClearLeft(t, p, k, n);
      p, n, k := StepUp(t, p, n, k);
    }
    Climb(t, p, k);
  }

  /** The end of a round of phase 1: with no left child left, step up to the
      parent, if any, counting one more node of the vine. */
  method StepUp(t: BinaryTree, p: Node, n: nat, ghost k: nat) returns (p': Node, n': nat, ghost k': nat)
    requires t.Valid() && p in t.Repr && VineBelow(t.shape, p, k, n) && p.left == null
    requires n <= Size(t.shape)
    ensures p' in t.Repr && VineBelow(t.shape, p', k', n') && n' <= Size(t.shape)
    ensures n' == n + 1 || (p' == p && n' == n && p.parent == null)
  {
    Climb(t, p, k);
    p', n', k' := p, n, k;
    if p.parent != null {
      ClimbVine(t.shape, p.parent, k, n);
      p', n', k' := p.parent, n + 1, k - 1;
    }
  }

  /** `p` is the node `k` steps down the spine of `s`. */
  ghost predicate OnSpine(s: Tree, p: Node, k: nat)
  {
    Drop(s, k).Br? && p == Drop(s, k).node
  }

  /** The first loop of phase 1: follow right children to the maximum. */
  method ToMax(t: BinaryTree) returns (p: Node, ghost k: nat)
    requires t.Valid() && t.root != null
    ensures p in t.Repr && OnSpine(t.shape, p, k) && p.right == null
    ensures Drop(t.shape, k).right == Nil
  {
    p := t.root;
    k := 0;
    while p.right != null
      invariant p in t.Repr && OnSpine(t.shape, p, k)
      decreases Size(Drop(t.shape, k))
    {
      NodeFacts(t, p);
      DropSub(t.shape, k, null);
      DropNext(t.shape, k);
      p := p.right;
      k := k + 1;
    }
    NodeFacts(t, p);
    DropSub(t.shape, k, null);
  }

  /** What the step up in phase 1 reads: below the top of the spine, the
      parent of `p` is the node one step up, whose right subtree is `p`'s; at
      the top `p` has no parent. */
  lemma Climb(t: BinaryTree, p: Node, k: nat)
    requires t.Valid() && p in t.Repr && OnSpine(t.shape, p, k)
    ensures p.parent != null <==> k >= 1
    ensures k >= 1 ==> p.parent in t.Repr && OnSpine(t.shape, p.parent, k - 1)
    ensures k >= 1 ==> Drop(t.shape, k - 1).right == Drop(t.shape, k)
    ensures k >= 1 ==> Size(Drop(t.shape, k - 1)) <= Size(t.shape)
    ensures k == 0 ==> t.shape == Drop(t.shape, k)
    ensures p.left == Top(Drop(t.shape, k).left) && (p.left != null ==> p.left in t.Repr)
  {
    NodeFacts(t, p);
    DropSub(t.shape, k, null);
    if k >= 1 {
      DropNext(t.shape, k - 1);
      DropSub(t.shape, k - 1, null);
    }
  }

  /** `p`, `k` steps down the spine, has a vine of `n - 1` nodes as its
      right subtree. */
  ghost predicate VineBelow(s: Tree, p: Node, k: nat, n: nat)
  {
    OnSpine(s, p, k) && IsVine(Drop(s, k).right) && n == 1 + Size(Drop(s, k).right)
  }

  /** Stepping up from a node without left child whose right subtree is a
      vine: the right subtree of the node `q` above is a vine one node longer. */
  lemma ClimbVine(s: Tree, q: Node, k: nat, n: nat)
    requires k >= 1 && Drop(s, k).Br? && Top(Drop(s, k).left) == null
    requires IsVine(Drop(s, k).right) && n == 1 + Size(Drop(s, k).right)
    requires OnSpine(s, q, k - 1) && Drop(s, k - 1).right == Drop(s, k)
    requires Size(Drop(s, k - 1)) <= Size(s)
    ensures VineBelow(s, q, k - 1, n + 1) && n + 1 <= Size(s)
  {
  }

  /** The inner loop of phase 1: rotate up the left child of `p`, the node
      `k` steps down the spine, until it has none. `p` moves down the spine
      by one step per rotation, with the same vine to its right. */
  method ClearLeft(t: BinaryTree, p: Node, ghost k0: nat, ghost n: nat) returns (ghost k: nat)
    requires t.Valid() && p in t.Repr && VineBelow(t.shape, p, k0, n)
    modifies t, t.Repr`parent, t.Repr`left, t.Repr`right, t.Repr`tree
    ensures t.Valid() && t.Repr == old(t.Repr) && InOrder(t.shape) == old(InOrder(t.shape))
    ensures VineBelow(t.shape, p, k, n) && p.left == null && Size(t.shape) == old(Size(t.shape))
  {
    k := k0;
    while p.left != null
      invariant t.Valid() && t.Repr == old(t.Repr) && InOrder(t.shape) == old(InOrder(t.shape))
      invariant p in t.Repr && VineBelow(t.shape, p, k, n) && Size(t.shape) == old(Size(t.shape))
      decreases Size(Drop(t.shape, k).left)
    {
      RotateLeftChild(t, p, k);
      k := k + 1;
    }
  }

  /** One rotation of the inner loop of phase 1: the left child of the node
      `k` steps down the spine is rotated up, and the node moves one step
      down the spine with a smaller left subtree. */
  method RotateLeftChild(t: BinaryTree, p: Node, ghost k: nat)
    requires t.Valid() && p in t.Repr && p.left != null && OnSpine(t.shape, p, k)
    modifies t, t.Repr`parent, t.Repr`left, t.Repr`right, t.Repr`tree
    ensures t.Valid() && t.Repr == old(t.Repr) && InOrder(t.shape) == old(InOrder(t.shape))
    ensures OnSpine(t.shape, p, k + 1)
    ensures Drop(t.shape, k + 1).right == old(Drop(t.shape, k).right)
    ensures Size(Drop(t.shape, k + 1).left) < old(Size(Drop(t.shape, k).left))
    ensures Size(t.shape) == old(Size(t.shape))
  {
    Climb(t, p, k);
    ghost var s := t.shape;
    var x := p.left;
    VineStep(s, k);
    Rotate(x, t);
    Climb(t, p, k + 1);
  }

  /** The shape side of `RotateLeftChild`. */
  lemma VineStep(s: Tree, k: nat)
    requires Distinct(s) && Drop(s, k).Br? && Drop(s, k).left.Br?
    ensures var s' := RotateUp(s, Drop(s, k).left.node);
      OnSpine(s', Drop(s, k).node, k + 1) &&
      Drop(s', k + 1).right == Drop(s, k).right &&
      Size(Drop(s', k + 1).left) < Size(Drop(s, k).left) &&
      InOrder(s') == InOrder(s) && Size(s') == Size(s)
  {
    var x := Drop(s, k).left.node;
    RotateNodes(s, x);
    VineRotate(s, k);
    RotateInOrder(s, x);
    DropNext(RotateUp(s, x), k);
  }

  // ---------------------------------------------------------------------
  // Phase 2: compression

  /** The shape after `compress` rotates up every other node of the right
      spine `k` times: each pair `x`, `y` of spine nodes becomes `y` with `x`
      as its left child, and `x` takes `y`'s old left subtree as its right. */
  ghost function CompressShape(t: Tree, k: nat): Tree
  {
    if k == 0 then t
    else match t
      case Br(a, x, Br(b, y, c)) => Br(Br(a, x, b), y, CompressShape(c, k - 1))
      case _ => t
  }

  /** Compression keeps the in-order sequence and the nodes. */
  lemma {:induction false} CompressFacts(t: Tree, k: nat)
    ensures InOrder(CompressShape(t, k)) == InOrder(t)
    ensures Nodes(CompressShape(t, k)) == Nodes(t)
    ensures Distinct(t) ==> Distinct(CompressShape(t, k))
  {
    if k > 0 {
      match t
      case Br(a, x, Br(b, y, c)) =>
        CompressFacts(c, k - 1);
        if Distinct(t) {
          var r := Br(b, y, c);
          assert Distinct(r) && Nodes(r) == Nodes(b) + {y} + Nodes(c);
          assert Distinct(Br(a, x, b));
          assert Nodes(Br(a, x, b)) !! Nodes(CompressShape(c, k - 1));
        }
        assert InOrder(CompressShape(t, k))
            == InOrder(a) + [x] + InOrder(b) + [y] + InOrder(CompressShape(c, k - 1));
      case _ =>
    }
  }

  /** `k` compressions shorten a spine of at least `2k` nodes by `k`; the
      spine then runs through every second of the old spine nodes and
      continues with the untouched rest. */
  lemma {:induction false} CompressSpine(t: Tree, k: nat)
    requires 2 * k <= Spine(t)
    ensures Spine(CompressShape(t, k)) == Spine(t) - k
    ensures Drop(CompressShape(t, k), k) == Drop(t, 2 * k)
    ensures forall j :: 0 <= j < k ==> Top(Drop(CompressShape(t, k), j)) == Top(Drop(t, 2 * j + 1))
  {
    if k > 0 {
      var c := t.right.right;
      CompressSpine(c, k - 1);
      forall j | 0 <= j < k
        ensures Top(Drop(CompressShape(t, k), j)) == Top(Drop(t, 2 * j + 1))
      {
        if j > 0 {
          assert Drop(CompressShape(t, k), j) == Drop(CompressShape(c, k - 1), j - 1);
          assert Drop(t, 2 * j + 1) == Drop(c, 2 * (j - 1) + 1);
        }
      }
    }
  }

  /** Round `c + 1` of `compress` is the rotation of the node `2c + 1` steps
      down the original spine, which sits below the top of the right subtree. */
  lemma {:induction false} CompressStep(t: Tree, c: nat)
    requires Distinct(t) && 2 * c + 2 <= Spine(t)
    ensures Drop(t, 2 * c + 1).Br?
    ensures Drop(t, 2 * c + 1).node in Nodes(CompressShape(t, c).right)
    ensures RotateUp(CompressShape(t, c), Drop(t, 2 * c + 1).node) == CompressShape(t, c + 1)
  {
    DropSpine(t, 2 * c + 1);
    var y' := Drop(t, 2 * c + 1).node;
    match t
    case Br(a, x, Br(b, y, cc)) =>
      if c > 0 {
        CompressStep(cc, c - 1);
        assert Drop(t, 2 * c + 1) == Drop(cc, 2 * (c - 1) + 1);
        var r := CompressShape(cc, c - 1);
        CompressFacts(cc, c - 1);
        assert y' in Nodes(cc);
        assert r.Br? && y' != r.node;
      }
  }

  /** `compress(t.root, count)`: `count` times, step right, rotate that node
      up and step right again. Stepping from or rotating a missing node raises
      `AttributeError`, which happens exactly when the spine has fewer than
      `2 * count` nodes; the rotations done until then stay done. */
  method Compress(t: BinaryTree, count: int) returns (r: Outcome<()>)
    requires t.Valid()
    modifies t, t.Repr`parent, t.Repr`left, t.Repr`right, t.Repr`tree
    ensures t.Valid() && t.Repr == old(t.Repr) && InOrder(t.shape) == old(InOrder(t.shape))
    ensures r.Ok? <==> count <= 0 || 2 * count <= old(Spine(t.shape))
    ensures r.Ok? ==> t.shape == CompressShape(old(t.shape), if count <= 0 then 0 else count)
    ensures r.Raise? ==> r.error == AttributeError
  {
    ghost var s0 := t.shape;
    var p := t.root;
    var c := 0;
    // the loop of `compress`, stopped before the first round whose
    // `p = p.right` (on a missing `p`) or `p.rotate()` (on a missing right
    // child) would raise
    while c < count && p != null && p.right != null
      invariant 0 <= c && (count > 0 ==> c <= count) && (count <= 0 ==> c == 0)
      invariant t.Valid() && t.Repr == old(t.Repr)
      invariant Distinct(s0) && 2 * c <= Spine(s0) && t.shape == CompressShape(s0, c)
      invariant p == Top(Drop(s0, 2 * c))
    {
      RoundStart(t, p, s0, c);
      p, c := Round(t, p, s0, c);
    }
    RoundStart(t, p, s0, c);
    CompressFacts(s0, c);
    if c < count {
      return Raise(AttributeError);
    }
    ghost var k: nat := if count <= 0 then 0 else count;
    assert c == k;
    return Ok(());
  }

  /** Where a round of `compress` starts: the node `2c` steps down the
      original spine heads the part not yet compressed, and its right child
      is the node `2c + 1` steps down, if the spine is that long. */
  lemma RoundStart(t: BinaryTree, p: Node?, s0: Tree, c: nat)
    requires t.Valid() && Distinct(s0) && 2 * c <= Spine(s0) && t.shape == CompressShape(s0, c)
    requires p == Top(Drop(s0, 2 * c))
    ensures p == null <==> Spine(s0) <= 2 * c
    ensures p != null ==> p in t.Repr && p.right == Top(Drop(s0, 2 * c + 1))
    ensures p != null ==> (p.right == null <==> Spine(s0) <= 2 * c + 1)
    ensures p != null && p.right != null ==> 2 * (c + 1) <= Spine(s0)
  {
    CompressSpine(s0, c);
    DropSpine(s0, 2 * c);
    if p == null {
      return;
    }
    DropSub(t.shape, c, null);
    NodeFacts(t, p);
    DropNext(s0, 2 * c);
    DropSpine(s0, 2 * c + 1);
  }

  /** One round of `compress`: step right, rotate that node up and step
      right again. The shape is compressed once more, and `p` moves two
      steps down the original spine. */
  method Round(t: BinaryTree, p: Node, ghost s0: Tree, c: int) returns (p': Node?, c': int)
    requires t.Valid() && Distinct(s0) && 0 <= c && 2 * c <= Spine(s0) && t.shape == CompressShape(s0, c)
    requires p in t.Repr && p.right == Top(Drop(s0, 2 * c + 1)) && p.right != null
    requires 2 * (c + 1) <= Spine(s0)
    modifies t, t.Repr`parent, t.Repr`left, t.Repr`right, t.Repr`tree
    ensures t.Valid() && t.Repr == old(t.Repr)
    ensures t.shape == CompressShape(s0, c + 1) && p' == Top(Drop(s0, 2 * (c + 1)))
    ensures c' == c + 1 && 2 * c' <= Spine(s0)
  {
    var y := p.right;
    CompressStep(s0, c);
    Rotate(y, t);
    RoundEnd(s0, c);
    NodeFacts(t, y);
    p' := y.right;
    c' := c + 1;
  }

  /** After round `c + 1` the rotated node, `2c + 1` steps down the original
      spine, is `c` steps down the new one and heads its own subtree, whose
      right child is the node `2c + 2` steps down the original spine. */
  lemma RoundEnd(s0: Tree, c: nat)
    requires Distinct(s0) && 2 * c + 2 <= Spine(s0)
    ensures var s1 := CompressShape(s0, c + 1);
      Drop(s1, c).Br? && Drop(s1, c).node == Top(Drop(s0, 2 * c + 1)) &&
      Sub(s1, Drop(s1, c).node) == Drop(s1, c) &&
      Top(Drop(s1, c).right) == Top(Drop(s0, 2 * (c + 1)))
  {
    var s1 := CompressShape(s0, c + 1);
    CompressFacts(s0, c + 1);
    CompressSpine(s0, c + 1);
    DropSpine(s1, c);
    DropSub(s1, c, null);
    DropNext(s1, c);
  }

  // ---------------------------------------------------------------------
  // The two ways of folding the vine

  /** `compress` on a spine of at least `2 * count` nodes: it does not raise,
      and it leaves the compressed shape. Every call the two foldings make
      meets this precondition, so neither of them ever raises. */
  method Fold(t: BinaryTree, count: int)
    requires t.Valid() && 0 <= count && 2 * count <= Spine(t.shape)
    modifies t, t.Repr`parent, t.Repr`left, t.Repr`right, t.Repr`tree
    ensures t.Valid() && t.Repr == old(t.Repr) && InOrder(t.shape) == old(InOrder(t.shape))
    ensures t.shape == CompressShape(old(t.shape), count)
  {
    var r := Compress(t, count);
  }

  /** Compressing moves nodes but neither adds nor removes any. */
  lemma {:induction false} CompressSize(t: Tree, k: nat)
    ensures Size(CompressShape(t, k)) == Size(t)
  {
    if k > 0 {
      match t
      case Br(a, x, Br(b, y, c)) =>
        CompressSize(c, k - 1);
      case _ =>
    }
  }

  /** The Day branch (`advanced` false): compress `(n - 1) // 2` nodes, then
      repeatedly drop the compressed nodes and one more from the count and
      compress half of what is left. Every round stays within the spine. */
  method Day(t: BinaryTree, n0: int)
    requires t.Valid() && 1 <= n0 <= Spine(t.shape)
    modifies t, t.Repr`parent, t.Repr`left, t.Repr`right, t.Repr`tree
    ensures t.Valid() && t.Repr == old(t.Repr) && InOrder(t.shape) == old(InOrder(t.shape))
  {
    var n := n0;
    var m := (n - 1) / 2;
    while m > 0
      invariant t.Valid() && t.Repr == old(t.Repr) && InOrder(t.shape) == old(InOrder(t.shape))
      invariant 0 <= n <= Spine(t.shape) && 0 <= 2 * m <= n
      decreases n
    {
      ghost var s, n0, m0 := t.shape, n, m;
      Fold(t, m);
      n := n - (m + 1);
      m := n / 2;
      DayStep(s, n0, m0, n, m);
    }
  }

  /** The count arithmetic of a Day round: after compressing `m0` of a
      spine of at least `n0` nodes, the new count and its half fit the
      shorter spine, and the count went down. */
  lemma DayStep(s: Tree, n0: int, m0: int, n: int, m: int)
    requires 0 < m0 && 2 * m0 <= n0 <= Spine(s) && n == n0 - (m0 + 1) && m == n / 2
    ensures 0 <= n < n0 && n <= Spine(CompressShape(s, m0)) && 0 <= 2 * m <= n
  {
    CompressSpine(s, m0);
  }

  /** The shape between two rounds of the Stout-Warren folding: going down
      the spine, the left subtrees of the first `d` nodes are at most `h`
      high, and every later one is lower by one than the one before it. */
  ghost predicate Stairs(t: Tree, d: nat, h: int)
  {
    match t
    case Nil => 0 <= d + h
    case Br(l, _, r) =>
      if d > 0 then Height(l) <= h && Stairs(r, d - 1, h)
      else Height(l) <= h - 1 && Stairs(r, 0, h - 1)
  }

  /** Such a shape is at most `d + h` high. */
  lemma {:induction false} StairsHeight(t: Tree, d: nat, h: int)
    requires Stairs(t, d, h)
    ensures Height(t) <= d + h
  {
    match t
    case Nil =>
    case Br(_, _, r) =>
      if d > 0 {
        StairsHeight(r, d - 1, h);
      } else {
        StairsHeight(r, 0, h - 1);
      }
  }

  /** A vine is such a shape, for its whole spine and any bound. */
  lemma {:induction false} VineStairs(t: Tree, h: int)
    requires IsVine(t) && h >= 0
    ensures Stairs(t, Spine(t), h)
  {
    if t.Br? {
      VineStairs(t.right, h);
    }
  }

  /** The first Stout-Warren round on a vine: after `m` rotations, the `m`
      rotated nodes hang as leaves to the left of the spine, the rest of the
      spine still has none, so with the bound 1 (or 0 if nothing rotated)
      the shape has stairs over its whole spine of `Spine(t) - m` nodes. */
  lemma {:induction false} FirstRound(t: Tree, m: nat, h: int)
    requires IsVine(t) && 2 * m <= Spine(t) && h >= 0 && (m > 0 ==> h >= 1)
    ensures Stairs(CompressShape(t, m), Spine(t) - m, h)
  {
    if m == 0 {
      VineStairs(t, h);
    } else {
      var c := t.right.right;
      FirstRound(c, m - 1, h);
    }
  }

  /** A later Stout-Warren round: compressing `m` pairs off the first
      `2m` of `2m + 1` nodes of height at most `h`; the new left subtrees
      are at most `h + 1` high, and the unpaired node joins the stairs
      below them. */
  lemma {:induction false} NextRound(t: Tree, m: nat, h: int)
    requires Stairs(t, 2 * m + 1, h) && 2 * m <= Spine(t)
    ensures Stairs(CompressShape(t, m), m, h + 1)
  {
    if m > 0 {
      var c := t.right.right;
      assert Stairs(t.right, 2 * m, h);
      NextRound(c, m - 1, h);
    }
  }

  /** A tree of height `h` has fewer than `2^h` nodes, so one of `n` nodes
      is at least `n.bit_length()` high. */
  lemma {:induction false} HeightAtLeast(t: Tree)
    ensures Size(t) < Pow2(Height(t))
    ensures BitLength(Size(t)) <= Height(t)
  {
    match t
    case Nil =>
    case Br(l, _, r) =>
      HeightAtLeast(l);
      HeightAtLeast(r);
      Pow2Mono(Height(l), Height(t) - 1);
      Pow2Mono(Height(r), Height(t) - 1);
    BitLengthBelow(Size(t), Height(t));
  }

  /** The counts of the Stout-Warren branch: `d = 2^j - 1` with
      `j = (n + 1).bit_length() - 1`, the first round's `n - d` rotations fit
      the vine, and `n.bit_length()` is `j`, plus one when `n` is not `d`. */
  lemma SurplusCount(n: nat)
    requires n >= 1
    ensures var j := BitLength(n + 1) - 1; var d := Pow2(j) - 1;
      j >= 1 && 0 <= n - d && 2 * (n - d) <= n &&
      BitLength(n) == j + (if n == d then 0 else 1)
  {
    BitLengthBounds(n + 1);
    var j := BitLength(n + 1) - 1;
    assert Pow2(j + 1) == 2 * Pow2(j);
    if j == 0 {
      assert false;
    }
    assert Pow2(j) == 2 * Pow2(j - 1);
    if n == Pow2(j) - 1 {
      BitLengthOf(n, j);
    } else {
      BitLengthOf(n, j + 1);
    }
  }

  /** `d //= 2` on `d = 2^j - 1`, `j >= 1`: it gives `2^(j-1) - 1`, and the
      old `d` is twice the new one plus one. */
  lemma Halve(j: nat)
    requires j >= 1
    ensures (Pow2(j) - 1) / 2 == Pow2(j - 1) - 1
    ensures Pow2(j) - 1 == 2 * (Pow2(j - 1) - 1) + 1
  {
    assert Pow2(j) == 2 * Pow2(j - 1);
  }

  /** Where the Stout-Warren folding of a vine of `n` nodes stands before
      `d //= 2`: `d` is `2^j - 1` and fits the spine, no node was lost, and
      the stairs reach down to `n.bit_length()` once `j` is 0. */
  ghost predicate Folding(s: Tree, d: int, j: nat, n: nat)
  {
    0 <= d <= Spine(s) && d == Pow2(j) - 1 && Size(s) == n && Stairs(s, d, BitLength(n) - j)
  }

  /** The first round compresses the `n - d` surplus nodes, which fit the
      vine, and reaches the folding state for `d`. */
  lemma FoldingStart(s: Tree, n: nat)
    requires IsVine(s) && n == Size(s) && n >= 1
    ensures var j := BitLength(n + 1) - 1; var d := Pow2(j) - 1;
      0 <= n - d && 2 * (n - d) <= Spine(s) && Folding(CompressShape(s, n - d), d, j, n)
  {
    SurplusCount(n);
    var j := BitLength(n + 1) - 1;
    var d := Pow2(j) - 1;
    var m, h := n - d, BitLength(n) - j;
    VineSpine(s);
    assert 2 * m <= Spine(s) && h >= 0 && (m > 0 ==> h >= 1);
    FirstRound(s, m, h);
    CompressSpine(s, m);
    CompressSize(s, m);
    var s' := CompressShape(s, m);
    assert Spine(s') == d && Spine(s) - m == d;
    assert Stairs(s', d, h);
  }

  /** A later round, `d //= 2` and `compress(t.root, d)`, fits the spine and
      keeps the folding state, one power of two down. */
  lemma FoldingNext(s: Tree, d0: int, j0: nat, d: int, j: int, n: nat)
    requires Folding(s, d0, j0, n) && d0 > 0 && d == d0 / 2 && j == j0 - 1
    ensures j >= 0 && 0 <= d && 2 * d <= Spine(s)
    ensures Folding(CompressShape(s, d), d, j, n)
  {
    Halve(j0);
    NextRound(s, d, BitLength(n) - j0);
    CompressSpine(s, d);
    CompressSize(s, d);
  }

  /** When `d` reaches 0 the tree has the least height of any tree of its
      size. */
  lemma FoldingEnd(s: Tree, j: nat, n: nat)
    requires Folding(s, 0, j, n)
    ensures Size(s) == n && Height(s) == BitLength(n)
  {
    StairsHeight(s, 0, BitLength(n) - j);
    HeightAtLeast(s);
  }

  /** The Stout-Warren branch (`advanced` true): with `d` one less than the
      largest power of two not above `n + 1`, compress the `n - d` surplus
      nodes, then compress `d // 2` nodes while halving `d` down to 0. Every
      round stays within the spine, and the result has the least height any
      tree of `n` nodes can have. */
  method StoutWarren(t: BinaryTree, n: int)
    requires t.Valid() && IsVine(t.shape) && n == Size(t.shape) && n >= 1
    modifies t, t.Repr`parent, t.Repr`left, t.Repr`right, t.Repr`tree
    ensures t.Valid() && t.Repr == old(t.Repr) && InOrder(t.shape) == old(InOrder(t.shape))
    ensures Size(t.shape) == n && Height(t.shape) == BitLength(n)
  {
    FoldingStart(t.shape, n);
    var d := Pow2(BitLength(n + 1) - 1) - 1;
    Fold(t, n - d);
    Halving(t, d, BitLength(n + 1) - 1, n);
  }

  /** The halving loop of the Stout-Warren branch, from the folding state
      for `d` to a tree of least height. */
  method Halving(t: BinaryTree, d0: int, ghost j0: nat, ghost n: nat)
    requires t.Valid() && Folding(t.shape, d0, j0, n)
    modifies t, t.Repr`parent, t.Repr`left, t.Repr`right, t.Repr`tree
    ensures t.Valid() && t.Repr == old(t.Repr) && InOrder(t.shape) == old(InOrder(t.shape))
    ensures Size(t.shape) == n && Height(t.shape) == BitLength(n)
  {
    var d, j := d0, j0;
    while d > 0
      invariant t.Valid() && t.Repr == old(t.Repr) && InOrder(t.shape) == old(InOrder(t.shape))
      invariant Folding(t.shape, d, j, n)
    {
      ghost var s, d0, j0 := t.shape, d, j;
      d := d / 2;
      j := j - 1;
      FoldingNext(s, d0, j0, d, j, n);
      Fold(t, d);
    }
    FoldingEnd(t.shape, j, n);
  }

  /** `dsw`: nothing for an empty tree; otherwise the vine, then the Day or
      the Stout-Warren folding. The in-order sequence, and so the search
      order and the key set, are those of the tree before. */
  method Dsw(t: BinaryTree, advanced: bool)
    requires t.Valid()
    modifies t, t.Repr`parent, t.Repr`left, t.Repr`right, t.Repr`tree
    ensures t.Valid() && t.Repr == old(t.Repr) && InOrder(t.shape) == old(InOrder(t.shape))
    ensures old(t.root) == null ==> t.shape == old(t.shape)
    ensures advanced ==> Height(t.shape) == BitLength(Size(t.shape))
  {
    if t.root == null {
      return;
    }
    var n := Vine(t);
    VineSpine(t.shape);
    if !advanced {
      Day(t, n);
    } else {
      StoutWarren(t, n);
    }
  }
}
