/// The binary-search walk the trees of the repository share: the node a key
/// is found at, the node the walk falls off from, and the shape after a new
/// leaf is hung there. The heap methods at the end are that walk and that
/// attachment done on the pointer fields; each tree's `insert` is built from
/// them.
module Bst {
  import opened BinTree

  /** The keys of a shape. */
  ghost function KeySet(t: Tree): set<int>
  {
    match t
    case Nil => {}
    case Br(l, n, r) => KeySet(l) + {n.key} + KeySet(r)
  }

  /** The node the walk from the top stops at for `key`: right past smaller
      keys, left past larger ones; null when it falls off the shape. */
  ghost function Find(t: Tree, key: int): Node?
  {
    match t
    case Nil => null
    case Br(l, n, r) => if n.key == key then n else if n.key < key then Find(r, key) else Find(l, key)
  }

  /** The last node of that walk: the node a new leaf for `key` hangs from. */
  ghost function Leaf(t: Tree, key: int): Node?
  {
    match t
    case Nil => null
    case Br(l, n, r) =>
      var c := if key < n.key then l else r;
      if c.Nil? then n else Leaf(c, key)
  }

  /** The shape with `z` hung as a new leaf where the walk for its key ends. */
  ghost function Attach(t: Tree, z: Node): Tree
  {
    match t
    case Nil => Br(Nil, z, Nil)
    case Br(l, n, r) => if z.key < n.key then Br(Attach(l, z), n, r) else Br(l, n, Attach(r, z))
  }

  /** The recorded pointer fields after `z` is hung from `Leaf(t, z.key)`. */
  ghost function Hang(m: map<Node, Links>, t: Tree, z: Node): map<Node, Links>
  {
    var q := Leaf(t, z.key);
    if q == null || q !in m then m else
    m[z := Links(q, null, null, null)]
     [q := if z.key < q.key then m[q].(left := z) else m[q].(right := z)]
  }

  // ---------------------------------------------------------------------
  // The walk finds exactly the keys that are there

  /** The keys of a node sequence. */
  ghost function KeysIn(s: seq<Node>): set<int>
  {
    set n | n in s :: n.key
  }

  /** The keys of a shape are those of its in-order sequence, so operations
      that keep the in-order sequence keep the keys. */
  lemma {:induction false} KeySetInOrder(t: Tree)
    ensures KeySet(t) == KeysIn(InOrder(t))
  {
    match t
    case Nil =>
    case Br(l, n, r) =>
      KeySetInOrder(l);
      KeySetInOrder(r);
      var a, b := InOrder(l), InOrder(r);
      assert InOrder(t) == a + [n] + b;
      assert forall x :: x in InOrder(t) <==> x in a || x == n || x in b;
  }

  /** A key is in the shape exactly when one of its nodes holds it. */
  lemma {:induction false} KeySetNodes(t: Tree, key: int)
    ensures key in KeySet(t) <==> exists n :: n in Nodes(t) && n.key == key
  {
    match t
    case Nil =>
    case Br(l, n, r) =>
      KeySetNodes(l, key);
      KeySetNodes(r, key);
  }

  /** In a search tree the walk stops at a node exactly when the key is present. */
  lemma {:induction false} FindSpec(t: Tree, key: int)
    requires IsBst(t)
    ensures Find(t, key) != null ==> Find(t, key) in Nodes(t) && Find(t, key).key == key
    ensures Find(t, key) == null <==> key !in KeySet(t)
  {
    match t
    case Nil =>
    case Br(l, n, r) =>
      BstParts(t);
      FindSpec(l, key);
      FindSpec(r, key);
      if n.key < key {
        assert key !in KeySet(l);
      } else if key < n.key {
        assert key !in KeySet(r);
      }
  }

  /** The subtree the walk has reached at `p` (empty once it fell off). */
  ghost function Below(t: Tree, p: Node?): Tree
  {
    if p == null then Nil else Sub(t, p)
  }

  /** A subtree of a search tree is a search tree. */
  lemma {:induction false} SubBst(t: Tree, x: Node)
    requires IsBst(t)
    ensures IsBst(Sub(t, x))
  {
    match t
    case Nil =>
    case Br(l, n, r) =>
      BstParts(t);
      SubBst(l, x);
      SubBst(r, x);
  }

  /** One step of the walk on a valid tree: the key is below `p` exactly when
      `p` holds it or it is below the child the walk moves to, which is a
      node of the tree with a smaller subtree. */
  lemma WalkStep(t: BinaryTree, p: Node, key: int)
    requires t.Valid() && p in t.Repr
    ensures p.left != null ==> p.left in t.Repr
    ensures p.right != null ==> p.right in t.Repr
    ensures Size(Below(t.shape, p.left)) < Size(Sub(t.shape, p))
    ensures Size(Below(t.shape, p.right)) < Size(Sub(t.shape, p))
    ensures Nodes(Below(t.shape, p.left)) <= Nodes(Sub(t.shape, p))
    ensures Nodes(Below(t.shape, p.right)) <= Nodes(Sub(t.shape, p))
    ensures Find(Sub(t.shape, p), key) ==
      if p.key == key then p
      else if p.key < key then Find(Below(t.shape, p.right), key)
      else Find(Below(t.shape, p.left), key)
    ensures var c := if key < p.key then p.left else p.right;
      Leaf(Sub(t.shape, p), key) == if c == null then p else Leaf(Below(t.shape, c), key)
  {
    NodeFacts(t, p);
    ChildFacts(t.shape, null, p);
    FindInSub(t.shape, p, key);
    LeafInSub(t.shape, p, key);
  }

  /** The walk runs inside the subtree it has reached. */
  lemma {:induction false} FindInSub(t: Tree, x: Node, key: int)
    requires Distinct(t) && x in Nodes(t)
    ensures Sub(t, x).Br? && Sub(t, x).node == x
    ensures Find(Sub(t, x), key) ==
      if x.key == key then x
      else if x.key < key then Find(Sub(t, x).right, key)
      else Find(Sub(t, x).left, key)
  {
    SubFacts(t, x);
  }

  // ---------------------------------------------------------------------
  // Hanging a new leaf

  /** The walk over a non-empty shape ends at one of its nodes, whose slot on
      the side of `key` is free. */
  lemma {:induction false} LeafSpec(t: Tree, key: int)
    requires t.Br?
    ensures Leaf(t, key) != null && Leaf(t, key) in Nodes(t)
  {
    match t
    case Br(l, n, r) =>
      var c := if key < n.key then l else r;
      if c.Br? {
        LeafSpec(c, key);
      }
  }

  /** Below the walk's current node the walk ends where it ends from the top. */
  lemma {:induction false} LeafInSub(t: Tree, x: Node, key: int)
    requires Distinct(t) && x in Nodes(t)
    ensures Sub(t, x).Br? && Sub(t, x).node == x
    ensures var c := if key < x.key then Sub(t, x).left else Sub(t, x).right;
      Leaf(Sub(t, x), key) == if c.Nil? then x else Leaf(c, key)
  {
    SubFacts(t, x);
  }

  /** Hanging a leaf adds exactly that node, keeps the others apart, and
      leaves the new node without children. */
  lemma {:induction false} AttachNodes(t: Tree, z: Node)
    requires Distinct(t) && z !in Nodes(t)
    ensures Nodes(Attach(t, z)) == Nodes(t) + {z}
    ensures Distinct(Attach(t, z))
    ensures Size(Attach(t, z)) == Size(t) + 1
    ensures Top(Attach(t, z)) == if t.Nil? then z else Top(t)
    ensures Sub(Attach(t, z), z) == Br(Nil, z, Nil)
    ensures ParentIn(Attach(t, z), z, null) == Leaf(t, z.key)
  {
    match t
    case Nil =>
    case Br(l, n, r) =>
      AttachNodes(l, z);
      AttachNodes(r, z);
      AttachParent(t, z, null);
  }

  lemma {:induction false} AttachParent(t: Tree, z: Node, par: Node?)
    requires Distinct(t) && z !in Nodes(t)
    ensures z in Nodes(Attach(t, z))
    ensures Sub(Attach(t, z), z) == Br(Nil, z, Nil)
    ensures ParentIn(Attach(t, z), z, par) == if t.Nil? then par else Leaf(t, z.key)
  {
    match t
    case Nil =>
    case Br(l, n, r) =>
      AttachParent(l, z, n);
      AttachParent(r, z, n);
      AttachNodesOnly(l, z);
      AttachNodesOnly(r, z);
  }

  lemma {:induction false} AttachNodesOnly(t: Tree, z: Node)
    ensures Nodes(Attach(t, z)) == Nodes(t) + {z}
  {
    match t
    case Nil =>
    case Br(l, n, r) =>
      AttachNodesOnly(l, z);
      AttachNodesOnly(r, z);
  }

  /** The new leaf goes into the in-order sequence at one place and nothing
      else moves. */
  lemma {:induction false} AttachInOrder(t: Tree, z: Node)
    ensures exists i :: 0 <= i <= |InOrder(t)| && InOrder(Attach(t, z)) == InOrder(t)[..i] + [z] + InOrder(t)[i..]
  {
    match t
    case Nil =>
      assert InOrder(Attach(t, z)) == InOrder(t)[..0] + [z] + InOrder(t)[0..];
    case Br(l, n, r) =>
      if z.key < n.key {
        AttachInOrder(l, z);
        var i :| 0 <= i <= |InOrder(l)| && InOrder(Attach(l, z)) == InOrder(l)[..i] + [z] + InOrder(l)[i..];
        SpliceLeft(InOrder(l), [n] + InOrder(r), i, z);
        assert InOrder(l) + ([n] + InOrder(r)) == InOrder(t);
        assert InOrder(Attach(t, z)) == InOrder(t)[..i] + [z] + InOrder(t)[i..];
      } else {
        AttachInOrder(r, z);
        var i :| 0 <= i <= |InOrder(r)| && InOrder(Attach(r, z)) == InOrder(r)[..i] + [z] + InOrder(r)[i..];
        SpliceRight(InOrder(l) + [n], InOrder(r), i, z);
        var j := |InOrder(l) + [n]| + i;
        assert InOrder(Attach(t, z)) == InOrder(t)[..j] + [z] + InOrder(t)[j..];
      }
  }

  /** An insertion into the front part of a concatenation. */
  lemma SpliceLeft(a: seq<Node>, b: seq<Node>, i: int, z: Node)
    requires 0 <= i <= |a|
    ensures (a[..i] + [z] + a[i..]) + b == (a + b)[..i] + [z] + (a + b)[i..]
  {
    assert (a + b)[..i] == a[..i];
    assert (a + b)[i..] == a[i..] + b;
  }

  /** An insertion into the back part of a concatenation. */
  lemma SpliceRight(a: seq<Node>, b: seq<Node>, i: int, z: Node)
    requires 0 <= i <= |b|
    ensures a + (b[..i] + [z] + b[i..]) == (a + b)[..|a| + i] + [z] + (a + b)[|a| + i..]
  {
    assert (a + b)[..|a| + i] == a + b[..i];
    assert (a + b)[|a| + i..] == b[i..];
  }

  /** A search tree with a new key hung where the walk ends is a search tree
      holding that key as well. */
  lemma {:induction false} AttachBst(t: Tree, z: Node)
    requires IsBst(t) && z.key !in KeySet(t)
    ensures IsBst(Attach(t, z))
    ensures KeySet(Attach(t, z)) == KeySet(t) + {z.key}
  {
    match t
    case Nil =>
    case Br(l, n, r) =>
      BstParts(t);
      AttachNodesOnly(l, z);
      AttachNodesOnly(r, z);
      if z.key < n.key {
        AttachBst(l, z);
        forall y | y in Nodes(Attach(l, z)) ensures y.key < n.key {
        }
      } else {
        AttachBst(r, z);
        forall y | y in Nodes(Attach(r, z)) ensures n.key < y.key {
        }
      }
      BstJoin(Attach(t, z));
  }

  /** After the leaf is hung the walk for its key stops at it. */
  lemma {:induction false} FindAttach(t: Tree, z: Node)
    requires IsBst(t) && z.key !in KeySet(t)
    ensures Find(Attach(t, z), z.key) == z
  {
    match t
    case Nil =>
    case Br(l, n, r) =>
      BstParts(t);
      if z.key < n.key {
        FindAttach(l, z);
      } else {
        FindAttach(r, z);
      }
  }

  /** The recorded fields after the hanging are those the new shape dictates. */
  lemma {:induction false} AttachLinked(m: map<Node, Links>, t: Tree, par: Node?, owner: BinaryTree?, z: Node)
    requires Linked(m, t, par, owner) && Distinct(t) && t.Br? && z !in Nodes(t)
    ensures Linked(Hang(m, t, z), Attach(t, z), par, owner)
  {
    match t
    case Br(l, n, r) =>
      var c := if z.key < n.key then l else r;
      var m' := Hang(m, t, z);
      if c.Nil? {
        assert m' == m[z := Links(n, null, null, null)][n := if z.key < n.key then m[n].(left := z) else m[n].(right := z)];
        var d := if z.key < n.key then r else l;
        LinkedDomain(m, d, n, owner);
        LinkedFrame(m, m', d, n, owner);
      } else {
        LeafSpec(c, z.key);
        assert m' == Hang(m, c, z);
        var d := if z.key < n.key then r else l;
        AttachLinked(m, c, n, owner, z);
        LinkedDomain(m, d, n, owner);
        LinkedFrame(m, m', d, n, owner);
        AttachNodes(c, z);
      }
  }

  // ---------------------------------------------------------------------
  // The walk and the attachment on the heap

  /** The insert walk: stop at the node holding `key`, or report the node the
      walk fell off from and on which side. */
  method Locate(t: BinaryTree, key: int) returns (found: Node?, parent: Node?, isLeft: bool)
    requires t.Valid() && t.root != null
    ensures found == Find(t.shape, key)
    ensures found != null ==> found in t.Repr
    ensures found == null ==> parent == Leaf(t.shape, key) && parent != null && parent in t.Repr && isLeft == (key < parent.key)
    ensures found == null ==> (if isLeft then parent.left else parent.right) == null
  {
    LeafSpec(t.shape, key);
    ghost var s := t.shape;
    var p := t.root;
    parent := null;
    isLeft := false;
    while p != null
      invariant p != null ==> p in t.Repr
      invariant Find(s, key) == if p == null then null else Find(Sub(s, p), key)
      invariant p != null ==> Leaf(s, key) == Leaf(Sub(s, p), key)
      invariant p == null ==> parent == Leaf(s, key) && parent != null && isLeft == (key < parent.key)
      invariant parent != null ==> p == if isLeft then parent.left else parent.right
      decreases if p == null then 0 else Size(Sub(s, p)) + 1
    {
      NodeFacts(t, p);
      FindInSub(s, p, key);
      LeafInSub(s, p, key);
      ChildFacts(s, null, p);
      if key == p.key {
        return p, parent, isLeft;
      } else if key < p.key {
        parent := p;
        p := p.left;
        isLeft := true;
      } else {
        parent := p;
        p := p.right;
        isLeft := false;
      }
    }
    found := null;
  }

  /** A new node as the structural root of an empty tree. */
  method MakeRoot(t: BinaryTree, key: int, data: int, color: Color, bh: int) returns (z: Node)
    requires t.Valid() && t.root == null
    modifies t
    ensures fresh(z) && z.key == key && z.data == data && z.color == color && z.bh == bh
    ensures z.depth == 0 && z.isRoot && z.minDepth == 0 && z.maxDepth == 0
    ensures t.Valid() && t.root == z && t.Repr == {z}
    ensures t.shape == Attach(old(t.shape), z) && t.links == map[z := Links(null, null, null, t)]
  {
    z := new Node(key, data, null, t, color, bh);
    t.root := z;
    t.shape := Br(Nil, z, Nil);
    t.Repr := {z};
    t.links := map[z := Links(null, null, null, t)];
  }

  /** A new node hung from `parent` on the side the walk chose. */
  method Hook(t: BinaryTree, key: int, data: int, parent: Node, isLeft: bool, color: Color, bh: int) returns (z: Node)
    requires t.Valid() && t.root != null && key !in KeySet(t.shape)
    requires parent == Leaf(t.shape, key) && isLeft == (key < parent.key)
    modifies t, parent`left, parent`right
    ensures fresh(z) && z.key == key && z.data == data && z.color == color && z.bh == bh
    ensures z.depth == 0 && z.isRoot && z.minDepth == 0 && z.maxDepth == 0
    ensures z.parent == parent && z.left == null && z.right == null
    ensures parent.left == (if isLeft then z else old(parent.left))
    ensures parent.right == (if isLeft then old(parent.right) else z)
    ensures t.Valid() && t.root == old(t.root) && t.Repr == old(t.Repr) + {z}
    ensures t.shape == Attach(old(t.shape), z)
    ensures parent in old(t.links) && t.links == old(t.links)[z := Links(parent, null, null, null)]
      [parent := if isLeft then old(t.links)[parent].(left := z) else old(t.links)[parent].(right := z)]
  {
    ghost var s, m, R := t.shape, t.links, t.Repr;
    LeafSpec(s, key);
    z := Adopt(parent, key, data, isLeft, color, bh);
    HangShaped(s, m, t, R, z);
    ghost var m' := HangAt(m, s, z, parent, isLeft);
    forall n | n in R + {z} ensures m'[n] == Links(n.parent, n.left, n.right, n.tree) {
      if n != z && n != parent {
        assert n in R;
      }
    }
    Record(t, Attach(s, z), m', R + {z});
  }

  /** Installs a new shape, node set and record of pointer fields that the
      pointer fields already follow. */
  ghost method Record(t: BinaryTree, s: Tree, m: map<Node, Links>, R: set<Node>)
    requires Shaped(s, m, t, R) && t.root == Top(s)
    requires forall n :: n in R ==> m[n] == Links(n.parent, n.left, n.right, n.tree)
    modifies t
    ensures t.Valid() && t.shape == s && t.Repr == R && t.links == m && t.root == old(t.root)
  {
    t.shape, t.Repr, t.links := s, R, m;
  }

  /** The pointer work of `Hook`: a new node below `parent`, in the child
      slot `isLeft` names. */
  method Adopt(parent: Node, key: int, data: int, isLeft: bool, color: Color, bh: int) returns (z: Node)
    modifies parent`left, parent`right
    ensures fresh(z) && z.key == key && z.data == data && z.color == color && z.bh == bh
    ensures z.depth == 0 && z.isRoot && z.minDepth == 0 && z.maxDepth == 0
    ensures z.parent == parent && z.left == null && z.right == null && z.tree == null
    ensures parent.left == (if isLeft then z else old(parent.left))
    ensures parent.right == (if isLeft then old(parent.right) else z)
  {
    z := new Node(key, data, parent, null, color, bh);
    if isLeft {
      parent.left := z;
    } else {
      parent.right := z;
    }
  }

  /** `Hang` spelled out for the leaf `parent` the walk ends at: the new node
      records `parent` above it, and `parent` records it on the side the key
      sends it to. */
  lemma HangAt(m: map<Node, Links>, s: Tree, z: Node, parent: Node, isLeft: bool) returns (m': map<Node, Links>)
    requires Leaf(s, z.key) == parent && parent in m && isLeft == (z.key < parent.key)
    ensures m' == Hang(m, s, z)
    ensures m' == m[z := Links(parent, null, null, null)]
      [parent := if isLeft then m[parent].(left := z) else m[parent].(right := z)]
  {
    m' := Hang(m, s, z);
  }

  /** Hanging a new node keeps a shape, its nodes and its record of pointer
      fields in step. */
  lemma HangShaped(s: Tree, m: map<Node, Links>, t: BinaryTree, R: set<Node>, z: Node)
    requires Shaped(s, m, t, R) && s.Br? && z !in R && z.key !in KeySet(s)
    ensures Shaped(Attach(s, z), Hang(m, s, z), t, R + {z})
    ensures Top(Attach(s, z)) == Top(s)
  {
    LeafSpec(s, z.key);
    AttachLinked(m, s, null, t, z);
    AttachNodes(s, z);
    AttachBst(s, z);
  }

  /** The data of a node found by the walk is overwritten; nothing else changes. */
  method Overwrite(t: BinaryTree, found: Node, data: int)
    requires t.Valid() && found in t.Repr
    modifies found`data
    ensures t.Valid() && found.data == data
  {
    found.data := data;
  }

  /** `Hook`, with what it means for the keys: the new key is in the tree and
      the walk for it now stops at the new node. */
  method HookLeaf(t: BinaryTree, key: int, data: int, parent: Node, isLeft: bool, color: Color, bh: int) returns (z: Node)
    requires t.Valid() && t.root != null && Find(t.shape, key) == null
    requires parent == Leaf(t.shape, key) && isLeft == (key < parent.key)
    modifies t, parent`left, parent`right
    ensures fresh(z) && z.key == key && z.data == data && z.color == color && z.bh == bh
    ensures z.depth == 0 && z.isRoot && z.minDepth == 0 && z.maxDepth == 0
    ensures z.parent == parent && z.left == null && z.right == null
    ensures parent.left == (if isLeft then z else old(parent.left))
    ensures parent.right == (if isLeft then old(parent.right) else z)
    ensures t.Valid() && t.root == old(t.root) && t.Repr == old(t.Repr) + {z}
    ensures t.shape == Attach(old(t.shape), z) && Find(t.shape, key) == z
    ensures KeySet(t.shape) == old(KeySet(t.shape)) + {key}
    ensures parent in old(t.links) && t.links == old(t.links)[z := Links(parent, null, null, null)]
      [parent := if isLeft then old(t.links)[parent].(left := z) else old(t.links)[parent].(right := z)]
  {
    ghost var s := t.shape;
    FindSpec(s, key);
    z := Hook(t, key, data, parent, isLeft, color, bh);
    FindAttach(s, z);
    AttachBst(s, z);
  }
}
