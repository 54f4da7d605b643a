/// The node and the tree container that every search tree of the repository
/// is built from, and the abstract shape their pointer fields must follow.
///
/// The repository layers three node kinds on each other (a plain node, a
/// red-black node with `color` and `bh`, a Tango node with `depth`,
/// `is_root`, `min_depth` and `max_depth`). Here a single `Node` class
/// carries all of those fields and each tree uses the ones it needs.
module BinTree {

  datatype Color = Red | Black

  /** The exceptions the trees raise (`KeyError`, `AttributeError` for a
      dereferenced `None`, `NotImplementedError`, a plain `Exception` for a
      state the code finds inconsistent), and `OutOfFuel` for a walk cut short
      by the bound the model puts on loops it cannot show to end. */
  datatype Error = KeyError | AttributeError | NotImplementedError | Inconsistent | OutOfFuel

  /** A returned value or a raised exception. */
  datatype Outcome<T> = Ok(value: T) | Raise(error: Error)

  class Node {
    const key: int
    var data: int
    var parent: Node?
    var left: Node?
    var right: Node?
    /** Set only on the structural root: the tree whose `root` must follow rotations. */
    var tree: BinaryTree?
    // red-black augmentation
    var color: Color
    var bh: int
    // Tango augmentation
    var depth: int
    var isRoot: bool
    var minDepth: int
    var maxDepth: int

    /** A node without children; `depth`, `min_depth` and `max_depth` start at 0
        and the node starts as the root of its own auxiliary tree, as a fresh
        Tango node does (the other trees never read those fields). */
    constructor (key: int, data: int, parent: Node?, tree: BinaryTree?, color: Color, bh: int)
      ensures this.key == key && this.data == data && this.parent == parent && this.tree == tree
      ensures left == null && right == null
      ensures this.color == color && this.bh == bh
      ensures depth == 0 && isRoot && minDepth == 0 && maxDepth == 0
    {
      this.key := key;
      this.data := data;
      this.parent := parent;
      this.left := null;
      this.right := null;
      this.tree := tree;
      this.color := color;
      this.bh := bh;
      this.depth := 0;
      this.isRoot := true;
      this.minDepth := 0;
      this.maxDepth := 0;
    }
  }

  /** The shape of a tree: which node is the left/right child of which. */
  datatype Tree = Nil | Br(left: Tree, node: Node, right: Tree)

  /** The pointer fields of one node. */
  datatype Links = Links(parent: Node?, left: Node?, right: Node?, tree: BinaryTree?)

  class BinaryTree {
    var root: Node?
    /** The abstract shape, its nodes, and a record of their pointer fields. */
    ghost var shape: Tree
    ghost var Repr: set<Node>
    ghost var links: map<Node, Links>

    /** The pointer fields of the nodes are exactly those the shape dictates,
        and the keys ascend in order. */
    ghost predicate Valid()
      reads this, Repr`parent, Repr`left, Repr`right, Repr`tree
    {
      Shaped(shape, links, this, Repr) && root == Top(shape) && Recorded()
    }

    /** `links` records the pointer fields of exactly the nodes in `Repr`. */
    ghost predicate Recorded()
      reads this, Repr`parent, Repr`left, Repr`right, Repr`tree
    {
      links.Keys == Repr &&
      forall n :: n in Repr ==> links[n] == Links(n.parent, n.left, n.right, n.tree)
    }

    constructor ()
      ensures Valid() && root == null && shape == Nil && Repr == {}
    {
      root := null;
      shape := Nil;
      Repr := {};
      links := map[];
    }
  }

  /** A search-tree shape `s` over the nodes `repr`, whose recorded pointer
      fields `m` follow it; `owner` is the tree its top names. */
  ghost predicate Shaped(s: Tree, m: map<Node, Links>, owner: BinaryTree?, repr: set<Node>)
  {
    repr == Nodes(s) && m.Keys == repr && Distinct(s) && Linked(m, s, null, owner) && IsBst(s)
  }

  /** The nodes a pointer stands for: none for `None`. */
  function Opt(c: Node?): set<Node>
  {
    if c == null then {} else {c}
  }

  function Top(t: Tree): Node?
  {
    if t.Nil? then null else t.node
  }

  ghost function Nodes(t: Tree): set<Node>
  {
    match t
    case Nil => {}
    case Br(l, n, r) => Nodes(l) + {n} + Nodes(r)
  }

  ghost function InOrder(t: Tree): seq<Node>
  {
    match t
    case Nil => []
    case Br(l, n, r) => InOrder(l) + [n] + InOrder(r)
  }

  ghost function Keys(s: seq<Node>): seq<int>
  {
    seq(|s|, i requires 0 <= i < |s| => s[i].key)
  }

  ghost function Size(t: Tree): nat
  {
    match t
    case Nil => 0
    case Br(l, _, r) => Size(l) + 1 + Size(r)
  }

  /** The number of nodes on a longest downward path. */
  ghost function Height(t: Tree): nat
  {
    match t
    case Nil => 0
    case Br(l, _, r) => 1 + if Height(l) >= Height(r) then Height(l) else Height(r)
  }

  /** No node occurs twice. */
  ghost predicate Distinct(t: Tree)
  {
    match t
    case Nil => true
    case Br(l, n, r) =>
      Distinct(l) && Distinct(r) && n !in Nodes(l) && n !in Nodes(r) && Nodes(l) !! Nodes(r)
  }

  ghost predicate Ascending(s: seq<Node>)
  {
    forall i, j :: 0 <= i < j < |s| ==> s[i].key < s[j].key
  }

  /** The binary-search-tree order: keys strictly ascend in order. */
  ghost predicate IsBst(t: Tree)
  {
    Ascending(InOrder(t))
  }

  /** The subtree rooted at `x` (Nil when `x` is not in `t`). */
  ghost function Sub(t: Tree, x: Node): Tree
  {
    match t
    case Nil => Nil
    case Br(l, n, r) => if n == x then t else if x in Nodes(l) then Sub(l, x) else Sub(r, x)
  }

  /** The parent of `x`, where `par` is the parent of the top of `t`. */
  ghost function ParentIn(t: Tree, x: Node, par: Node?): Node?
  {
    match t
    case Nil => null
    case Br(l, n, r) => if n == x then par else if x in Nodes(l) then ParentIn(l, x, n) else ParentIn(r, x, n)
  }

  ghost function Depth(t: Tree, x: Node): nat
  {
    match t
    case Nil => 0
    case Br(l, n, r) => if n == x then 0 else if x in Nodes(l) then 1 + Depth(l, x) else 1 + Depth(r, x)
  }

  /** The pointer fields of every node of `t` agree with `t`, where `par` is the
      parent of the top of `t` and `owner` the tree the structural root names. */
  ghost predicate Linked(m: map<Node, Links>, t: Tree, par: Node?, owner: BinaryTree?)
  {
    match t
    case Nil => true
    case Br(l, n, r) =>
      n in m && m[n] == Links(par, Top(l), Top(r), if par == null then owner else null) &&
      Linked(m, l, n, owner) && Linked(m, r, n, owner)
  }

  // ---------------------------------------------------------------------
  // Facts about shapes

  lemma {:induction false} InOrderFacts(t: Tree)
    ensures |InOrder(t)| == Size(t)
    ensures forall x :: x in Nodes(t) ==> x in InOrder(t)
    ensures forall i :: 0 <= i < |InOrder(t)| ==> InOrder(t)[i] in Nodes(t)
  {
    match t
    case Nil =>
    case Br(l, n, r) => InOrderFacts(l); InOrderFacts(r);
  }

  lemma {:induction false} SizeIsCard(t: Tree)
    requires Distinct(t)
    ensures |Nodes(t)| == Size(t)
  {
    match t
    case Nil =>
    case Br(l, n, r) =>
      SizeIsCard(l); SizeIsCard(r);
      assert Nodes(l) * Nodes(r) == {};
      assert |Nodes(l) + Nodes(r)| == |Nodes(l)| + |Nodes(r)|;
  }

  lemma {:induction false} SubFacts(t: Tree, x: Node)
    requires Distinct(t) && x in Nodes(t)
    ensures Sub(t, x).Br? && Sub(t, x).node == x
    ensures Distinct(Sub(t, x)) && Nodes(Sub(t, x)) <= Nodes(t)
    ensures Size(Sub(t, x)) <= Size(t)
  {
    match t
    case Br(l, n, r) =>
      if n == x {
      } else if x in Nodes(l) {
        SubFacts(l, x);
      } else {
        SubFacts(r, x);
      }
  }

  /** The pointer fields of any node of a linked shape. */
  lemma {:induction false} LinkedAt(m: map<Node, Links>, t: Tree, par: Node?, owner: BinaryTree?, x: Node)
    requires Linked(m, t, par, owner) && Distinct(t) && x in Nodes(t)
    ensures x in m && Sub(t, x).Br?
    ensures m[x] == Links(ParentIn(t, x, par), Top(Sub(t, x).left), Top(Sub(t, x).right),
                          if ParentIn(t, x, par) == null then owner else null)
  {
    match t
    case Br(l, n, r) =>
      if n == x {
      } else if x in Nodes(l) {
        LinkedAt(m, l, n, owner, x);
      } else {
        LinkedAt(m, r, n, owner, x);
      }
  }

  /** Every node of a linked shape has recorded pointer fields. */
  lemma {:induction false} LinkedDomain(m: map<Node, Links>, t: Tree, par: Node?, owner: BinaryTree?)
    requires Linked(m, t, par, owner)
    ensures forall n :: n in Nodes(t) ==> n in m
  {
    match t
    case Nil =>
    case Br(l, n, r) =>
      LinkedDomain(m, l, n, owner);
      LinkedDomain(m, r, n, owner);
  }

  /** `Linked` only looks at the nodes of the shape. */
  lemma {:induction false} LinkedFrame(m: map<Node, Links>, m': map<Node, Links>, t: Tree, par: Node?, owner: BinaryTree?)
    requires Linked(m, t, par, owner)
    requires forall n :: n in Nodes(t) ==> n in m && n in m' && m'[n] == m[n]
    ensures Linked(m', t, par, owner)
  {
    match t
    case Nil =>
    case Br(l, n, r) =>
      LinkedFrame(m, m', l, n, owner);
      LinkedFrame(m, m', r, n, owner);
  }

  /** A child's subtree is the child slot of its parent's subtree, one level deeper. */
  lemma {:induction false} ChildFacts(t: Tree, par: Node?, x: Node)
    requires Distinct(t) && x in Nodes(t)
    ensures Sub(t, x).Br?
    ensures Top(Sub(t, x).left) != null ==>
      var c := Top(Sub(t, x).left);
      c in Nodes(t) && Sub(t, c) == Sub(t, x).left && ParentIn(t, c, par) == x && Depth(t, c) == Depth(t, x) + 1
    ensures Top(Sub(t, x).right) != null ==>
      var c := Top(Sub(t, x).right);
      c in Nodes(t) && Sub(t, c) == Sub(t, x).right && ParentIn(t, c, par) == x && Depth(t, c) == Depth(t, x) + 1
  {
    match t
    case Br(l, n, r) =>
      if n == x {
      } else if x in Nodes(l) {
        ChildFacts(l, n, x);
      } else {
        ChildFacts(r, n, x);
      }
  }

  /** A node's parent holds it in one of its child slots, one level up. */
  lemma {:induction false} ParentFacts(t: Tree, par: Node?, x: Node)
    requires Distinct(t) && x in Nodes(t) && x != Top(t)
    ensures var p := ParentIn(t, x, par);
      p != null && p in Nodes(t) && Sub(t, p).Br? &&
      (Top(Sub(t, p).left) == x || Top(Sub(t, p).right) == x) &&
      Depth(t, p) + 1 == Depth(t, x)
  {
    match t
    case Br(l, n, r) =>
      if x in Nodes(l) {
        if x == Top(l) {
          SubFacts(l, x);
        } else {
          ParentFacts(l, n, x);
        }
      } else {
        if x == Top(r) {
          SubFacts(r, x);
        } else {
          ParentFacts(r, n, x);
        }
      }
  }

  /** Only the top has no parent. */
  lemma {:induction false} ParentNull(t: Tree, x: Node)
    requires Distinct(t) && x in Nodes(t)
    ensures ParentIn(t, x, null) == null <==> x == Top(t)
    ensures x == Top(t) <==> Depth(t, x) == 0
  {
    if x != Top(t) {
      ParentFacts(t, null, x);
    }
  }

  /** Descendants of `x` are the nodes of its subtree. */
  lemma {:induction false} SubOfSub(t: Tree, x: Node, y: Node)
    requires Distinct(t) && x in Nodes(t) && y in Nodes(Sub(t, x))
    ensures Sub(t, y) == Sub(Sub(t, x), y)
  {
    match t
    case Br(l, n, r) =>
      if n == x {
      } else if x in Nodes(l) {
        SubFacts(l, x);
        SubOfSub(l, x, y);
      } else {
        SubFacts(r, x);
        SubOfSub(r, x, y);
      }
  }

  /** A node strictly inside the subtree of `a` lies deeper than `a`. */
  lemma {:induction false} SubDeeper(t: Tree, a: Node, x: Node)
    requires Distinct(t) && a in Nodes(t) && x in Nodes(Sub(t, a)) && x != a
    ensures Depth(t, x) > Depth(t, a)
  {
    match t
    case Br(l, n, r) =>
      if n != a {
        if a in Nodes(l) {
          SubFacts(l, a);
          SubDeeper(l, a, x);
        } else {
          SubFacts(r, a);
          SubDeeper(r, a, x);
        }
      }
  }

  /** The subtree of a node inside the subtree of `a` lies inside it. */
  lemma SubWithin(t: Tree, a: Node, b: Node)
    requires Distinct(t) && a in Nodes(t) && b in Nodes(Sub(t, a))
    ensures b in Nodes(t) && Nodes(Sub(t, b)) <= Nodes(Sub(t, a))
  {
    SubFacts(t, a);
    SubOfSub(t, a, b);
    SubFacts(Sub(t, a), b);
  }

  /** The parent of a node strictly inside the subtree of `a` is in that
      subtree too. */
  lemma {:induction false} ParentInSub(t: Tree, a: Node, x: Node, par: Node?)
    requires Distinct(t) && a in Nodes(t) && x in Nodes(Sub(t, a)) && x != a
    ensures ParentIn(t, x, par) != null && ParentIn(t, x, par) in Nodes(Sub(t, a))
  {
    match t
    case Br(l, n, r) =>
      if n == a {
        if x in Nodes(l) && x != l.node {
          ParentFacts(l, n, x);
        } else if x in Nodes(r) && x != r.node {
          ParentFacts(r, n, x);
        }
      } else if a in Nodes(l) {
        SubFacts(l, a);
        ParentInSub(l, a, x, n);
      } else {
        SubFacts(r, a);
        ParentInSub(r, a, x, n);
      }
  }

  /** Two nodes whose subtrees both hold `x` lie one inside the subtree of
      the other. */
  lemma {:induction false} AncestorsNest(t: Tree, a: Node, b: Node, x: Node)
    requires Distinct(t) && a in Nodes(t) && b in Nodes(t)
    requires x in Nodes(Sub(t, a)) && x in Nodes(Sub(t, b))
    ensures a in Nodes(Sub(t, b)) || b in Nodes(Sub(t, a))
  {
    match t
    case Br(l, n, r) =>
      if a != n && b != n {
        if a in Nodes(l) {
          SubFacts(l, a);
          if b in Nodes(l) {
            SubFacts(l, b);
            AncestorsNest(l, a, b, x);
          } else {
            SubFacts(r, b);
          }
        } else {
          SubFacts(r, a);
          if b in Nodes(r) {
            SubFacts(r, b);
            AncestorsNest(r, a, b, x);
          } else {
            SubFacts(l, b);
          }
        }
      }
  }

  // ---------------------------------------------------------------------
  // Facts about the binary-search-tree order

  lemma {:induction false} BstSplit(t: Tree)
    requires t.Br?
    ensures IsBst(t) <==>
      IsBst(t.left) && IsBst(t.right) &&
      (forall y :: y in Nodes(t.left) ==> y.key < t.node.key) &&
      (forall y :: y in Nodes(t.right) ==> t.node.key < y.key)
  {
    if IsBst(t) {
      BstParts(t);
    }
    if IsBst(t.left) && IsBst(t.right) &&
      (forall y :: y in Nodes(t.left) ==> y.key < t.node.key) &&
      (forall y :: y in Nodes(t.right) ==> t.node.key < y.key)
    {
      BstJoin(t);
    }
  }

  lemma {:induction false} BstParts(t: Tree)
    requires t.Br? && IsBst(t)
    ensures IsBst(t.left) && IsBst(t.right)
    ensures forall y :: y in Nodes(t.left) ==> y.key < t.node.key
    ensures forall y :: y in Nodes(t.right) ==> t.node.key < y.key
  {
    var l, n, r := t.left, t.node, t.right;
    var a, b := InOrder(l), InOrder(r);
    assert InOrder(t) == a + [n] + b;
    AscendingParts(a, n, b);
    InOrderFacts(l);
    InOrderFacts(r);
    forall y | y in Nodes(l) ensures y.key < n.key {
      assert y in a;
    }
    forall y | y in Nodes(r) ensures n.key < y.key {
      assert y in b;
    }
  }

  /** The parts of an ascending sequence around one element ascend, and lie
      below and above that element. */
  lemma AscendingParts(a: seq<Node>, n: Node, b: seq<Node>)
    requires Ascending(a + [n] + b)
    ensures Ascending(a) && Ascending(b)
    ensures forall y :: y in a ==> y.key < n.key
    ensures forall y :: y in b ==> n.key < y.key
  {
    var s, k := a + [n] + b, |a|;
    assert forall i :: 0 <= i < k ==> s[i] == a[i];
    assert forall i :: 0 <= i < |b| ==> s[k + 1 + i] == b[i];
    assert s[k] == n;
    forall y | y in a ensures y.key < n.key {
      var i :| 0 <= i < |a| && a[i] == y;
      assert s[i] == y;
    }
    forall y | y in b ensures n.key < y.key {
      var i :| 0 <= i < |b| && b[i] == y;
      assert s[k + 1 + i] == y;
    }
  }

  lemma {:induction false} BstJoin(t: Tree)
    requires t.Br? && IsBst(t.left) && IsBst(t.right)
    requires forall y :: y in Nodes(t.left) ==> y.key < t.node.key
    requires forall y :: y in Nodes(t.right) ==> t.node.key < y.key
    ensures IsBst(t)
  {
    var l, n, r := t.left, t.node, t.right;
    var a, b := InOrder(l), InOrder(r);
    var s := InOrder(t);
    assert s == a + [n] + b;
    var k := |a|;
    InOrderFacts(l);
    InOrderFacts(r);
    forall i, j | 0 <= i < j < |s| ensures s[i].key < s[j].key {
      if j < k {
        assert s[i] == a[i] && s[j] == a[j];
      } else if j == k {
        assert s[i] == a[i] && s[j] == n;
      } else if i > k {
        assert s[i] == b[i - k - 1] && s[j] == b[j - k - 1];
      } else if i == k {
        assert s[j] == b[j - k - 1];
      } else {
        assert s[i] == a[i] && s[j] == b[j - k - 1];
      }
    }
  }

  /** Keys identify nodes in a search tree. */
  lemma {:induction false} BstDistinct(t: Tree)
    requires IsBst(t)
    ensures Distinct(t)
  {
    match t
    case Nil =>
    case Br(l, n, r) =>
      BstSplit(t);
      BstDistinct(l);
      BstDistinct(r);
  }

  // ---------------------------------------------------------------------
  // Reading the heap through the shape

  /** The pointer fields of a node of a valid tree, read off the shape. */
  lemma NodeFacts(t: BinaryTree, x: Node)
    requires t.Valid() && x in t.Repr
    ensures Sub(t.shape, x).Br? && Sub(t.shape, x).node == x
    ensures x.parent == ParentIn(t.shape, x, null)
    ensures x.left == Top(Sub(t.shape, x).left) && x.right == Top(Sub(t.shape, x).right)
    ensures x.tree == if x.parent == null then t else null
    ensures x.parent == null <==> x == t.root
    ensures x.parent != null ==> x.parent in t.Repr
    ensures x.left != null ==> x.left in t.Repr && x.left.parent == x
    ensures x.right != null ==> x.right in t.Repr && x.right.parent == x
  {
    var m := t.links;
    LinkedAt(m, t.shape, null, t, x);
    SubFacts(t.shape, x);
    ParentNull(t.shape, x);
    if x.parent != null {
      ParentFacts(t.shape, null, x);
    }
    ChildFacts(t.shape, null, x);
    if x.left != null {
      LinkedAt(m, t.shape, null, t, x.left);
    }
    if x.right != null {
      LinkedAt(m, t.shape, null, t, x.right);
    }
  }
}
