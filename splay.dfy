/// `SplayTree` of tree/splay.py: a search tree that moves the node it touches
/// to the root by zig, zig-zig and zig-zag rotations.
module Splay {
  import opened BinTree
  import opened Bst
  import opened Rotation

  // ---------------------------------------------------------------------
  // What the three splay steps do to the depth of the splayed node

  /** zig-zig: the parent is rotated first, taking `p` up with it, then `p`;
      `p` rises two levels. */
  lemma {:induction false} ZigZigDepth(s: Tree, p: Node)
    requires Distinct(s) && p in Nodes(s)
    requires ParentIn(s, p, null) != null && ParentIn(s, ParentIn(s, p, null), null) != null
    requires var q := ParentIn(s, p, null); var g := ParentIn(s, q, null);
      Sub(s, q).Br? && Sub(s, g).Br? &&
      ((Top(Sub(s, q).left) == p && Top(Sub(s, g).left) == q) ||
       (Top(Sub(s, q).right) == p && Top(Sub(s, g).right) == q))
    ensures var s2 := RotateUp(RotateUp(s, ParentIn(s, p, null)), p);
      p in Nodes(s2) && Depth(s2, p) + 2 == Depth(s, p)
  {
    var q := ParentIn(s, p, null);
    ParentFacts(s, null, p);
    ParentFacts(s, null, q);
    ParentNull(s, q);
    RotateDepth(s, q);
    RotateNodes(s, q);
    var s1 := RotateUp(s, q);
    var g := ParentIn(s, q, null);
    SubFacts(s, g);
    SubFacts(s, q);
    if Top(Sub(s, g).left) == q {
      assert Top(Sub(s1, q).left) == p;
    } else {
      assert Top(Sub(s1, q).right) == p;
    }
    ChildFacts(s1, null, q);
    assert Depth(s1, p) == Depth(s1, q) + 1;
    ParentNull(s1, p);
    RotateDepth(s1, p);
  }

  /** zig-zag: `p` is rotated twice and rises two levels. */
  lemma ZigZagDepth(s: Tree, p: Node)
    requires Distinct(s) && p in Nodes(s)
    requires ParentIn(s, p, null) != null && ParentIn(s, ParentIn(s, p, null), null) != null
    ensures var s2 := RotateUp(RotateUp(s, p), p);
      p in Nodes(s2) && Depth(s2, p) + 2 == Depth(s, p)
  {
    var q := ParentIn(s, p, null);
    ParentFacts(s, null, p);
    ParentNull(s, p);
    ParentNull(s, q);
    ParentFacts(s, null, q);
    RotateDepth(s, p);
    RotateNodes(s, p);
    var s1 := RotateUp(s, p);
    ParentNull(s1, p);
    RotateDepth(s1, p);
  }

  // ---------------------------------------------------------------------
  // Splaying

  /** One round of the loop of `_splay`: zig when the parent is the root,
      zig-zig (parent first) when `p` and its parent are children on the same
      side, zig-zag (`p` twice) otherwise. `p` ends nearer the root. */
  method SplayStep(t: BinaryTree, p: Node)
    requires t.Valid() && p in t.Repr && p.parent != null
    modifies t, t.Repr`parent, t.Repr`left, t.Repr`right, t.Repr`tree
    ensures t.Valid() && t.Repr == old(t.Repr)
    ensures InOrder(t.shape) == old(InOrder(t.shape))
    ensures p in Nodes(t.shape) && Depth(t.shape, p) < old(Depth(t.shape, p))
    ensures old(p.parent.parent) == null ==> t.shape == RotateUp(old(t.shape), p)
    ensures old(p.parent.parent) != null && old(SameSide(p)) ==>
      t.shape == RotateUp(RotateUp(old(t.shape), old(p.parent)), p)
    ensures old(p.parent.parent) != null && !old(SameSide(p)) ==>
      t.shape == RotateUp(RotateUp(old(t.shape), p), p)
  {
    ghost var s := t.shape;
    var q := p.parent;
    NodeFacts(t, p);
    NodeFacts(t, q);
    ParentNull(s, p);
    ParentFacts(s, null, p);
    RotateNodes(s, p);
    RotateInOrder(s, p);
    if q.parent == null {
      // zig
      ParentNull(s, p);
      RotateDepth(s, p);
      Rotate(p, t);
    } else if (p == q.left && q == q.parent.left) || (p == q.right && q == q.parent.right) {
      // zig-zig
      NodeFacts(t, q.parent);
      ZigZigDepth(s, p);
      RotateNodes(s, q);
      RotateInOrder(s, q);
      Rotate(q, t);
      RotateInOrder(t.shape, p);
      Rotate(p, t);
    } else if (p == q.left && q == q.parent.right) || (p == q.right && q == q.parent.left) {
      // zig-zag
      ZigZagDepth(s, p);
      Rotate(p, t);
      RotateInOrder(t.shape, p);
      Rotate(p, t);
    } else {
      NodeFacts(t, q.parent);
      ParentNull(s, q);
      ParentFacts(s, null, q);
      assert false;
    }
  }

  /** `p` and its parent are children on the same side. */
  predicate SameSide(p: Node)
    reads p, p.parent, if p.parent == null then {} else {p.parent.parent}
  {
    p.parent != null && p.parent.parent != null &&
    ((p == p.parent.left && p.parent == p.parent.parent.left) ||
     (p == p.parent.right && p.parent == p.parent.parent.right))
  }

  /** `_splay`: repeat splay steps until `p` has no parent; `p` is then the
      root and the in-order sequence is the one before. */
  method Splay(t: BinaryTree, p: Node)
    requires t.Valid() && p in t.Repr
    modifies t, t.Repr`parent, t.Repr`left, t.Repr`right, t.Repr`tree
    ensures t.Valid() && t.Repr == old(t.Repr)
    ensures InOrder(t.shape) == old(InOrder(t.shape))
    ensures t.root == p && p.parent == null
  {
    while p.parent != null
      invariant t.Valid() && t.Repr == old(t.Repr) && p in t.Repr
      invariant InOrder(t.shape) == old(InOrder(t.shape))
      decreases Depth(t.shape, p)
    {
      SplayStep(t, p);
    }
    NodeFacts(t, p);
  }

  /** `insert`: an empty tree gets the key as its root; a present key has its
      data overwritten and its node splayed; a new key is hung as a leaf and
      splayed. Either way the node with the key ends at the root. */
  method Insert(t: BinaryTree, key: int, data: int) returns (inserted: bool)
    requires t.Valid()
    modifies t, t.Repr`data, t.Repr`parent, t.Repr`left, t.Repr`right, t.Repr`tree
    ensures t.Valid() && t.root != null && t.root.key == key && t.root.data == data
    ensures inserted <==> key !in old(KeySet(t.shape))
    ensures KeySet(t.shape) == old(KeySet(t.shape)) + {key}
    ensures !inserted ==> InOrder(t.shape) == old(InOrder(t.shape)) && t.Repr == old(t.Repr)
    ensures inserted ==> (fresh(t.root) && t.Repr == old(t.Repr) + {t.root} &&
      InOrder(t.shape) == InOrder(Attach(old(t.shape), t.root)))
    ensures forall n :: n in old(t.Repr) && n.key != key ==> n.data == old(n.data)
  {
    FindSpec(t.shape, key);
    if t.root == null {
      var z := MakeRoot(t, key, data, Black, 1);
      return true;
    }
    var found, parent, isLeft := Locate(t, key);
    if found != null {
      Update(t, found, data);
      return false;
    }
    AddLeaf(t, key, data, parent, isLeft);
    return true;
  }

  /** The present-key branch of `insert`: overwrite the data, then splay. */
  method Update(t: BinaryTree, found: Node, data: int)
    requires t.Valid() && found in t.Repr
    modifies t, found`data, t.Repr`parent, t.Repr`left, t.Repr`right, t.Repr`tree
    ensures t.Valid() && t.Repr == old(t.Repr) && t.root == found && found.data == data
    ensures InOrder(t.shape) == old(InOrder(t.shape)) && KeySet(t.shape) == old(KeySet(t.shape))
    ensures forall n :: n in old(t.Repr) && n != found ==> n.data == old(n.data)
  {
    Overwrite(t, found, data);
    SplayKeeping(t, found);
  }

  /** The new-key branch of `insert`: hang a leaf where the walk fell off,
      then splay it. */
  method AddLeaf(t: BinaryTree, key: int, data: int, parent: Node, isLeft: bool)
    requires t.Valid() && t.root != null && Find(t.shape, key) == null
    requires parent == Leaf(t.shape, key) && parent in t.Repr && isLeft == (key < parent.key)
    modifies t, t.Repr`parent, t.Repr`left, t.Repr`right, t.Repr`tree
    ensures t.Valid() && fresh(t.root) && t.root.key == key && t.root.data == data
    ensures t.Repr == old(t.Repr) + {t.root}
    ensures KeySet(t.shape) == old(KeySet(t.shape)) + {key}
    ensures InOrder(t.shape) == InOrder(Attach(old(t.shape), t.root))
  {
    var z := HookLeaf(t, key, data, parent, isLeft, Black, 1);
    assert fresh(t.Repr - old(t.Repr));
    SplayKeeping(t, z);
  }

  /** `Splay`, with what it means for the keys: they stay the same. */
  method SplayKeeping(t: BinaryTree, p: Node)
    requires t.Valid() && p in t.Repr
    modifies t, t.Repr`parent, t.Repr`left, t.Repr`right, t.Repr`tree
    ensures t.Valid() && t.Repr == old(t.Repr)
    ensures InOrder(t.shape) == old(InOrder(t.shape)) && KeySet(t.shape) == old(KeySet(t.shape))
    ensures t.root == p
  {
    KeySetInOrder(t.shape);
    Splay(t, p);
    KeySetInOrder(t.shape);
  }

  /** `search` as written: its loop runs only while `p is None`, so on an
      empty tree it reads `key` of `None`, and on any other tree it skips the
      loop and its `else` clause raises `KeyError` whether or not the key is
      present. Nothing is splayed. */
  method SearchAsWritten(t: BinaryTree, key: int) returns (r: Outcome<int>)
    requires t.Valid()
    ensures t.root == null ==> r == Raise(AttributeError)
    ensures t.root != null ==> r == Raise(KeyError)
    ensures key in KeySet(t.shape) ==> r == Raise(KeyError)
  {
    var p := t.root;
    if p == null {
      // the loop body dereferences `p.key` with `p` None
      return Raise(AttributeError);
    }
    // the loop is skipped and its `else` clause runs
    return Raise(KeyError);
  }

  /** `search` with the loop guard `p is not None` it evidently means: walk
      to the key, splay its node to the root and return its data, or raise
      `KeyError` when the walk falls off. */
  method Search(t: BinaryTree, key: int) returns (r: Outcome<int>)
    requires t.Valid()
    modifies t, t.Repr`parent, t.Repr`left, t.Repr`right, t.Repr`tree
    ensures t.Valid() && t.Repr == old(t.Repr)
    ensures InOrder(t.shape) == old(InOrder(t.shape))
    ensures r.Ok? <==> key in old(KeySet(t.shape))
    ensures r.Ok? ==> t.root != null && t.root.key == key && r.value == t.root.data
    ensures r.Raise? ==> r.error == KeyError && t.shape == old(t.shape)
  {
    var p := t.root;
    FindSpec(t.shape, key);
    while p != null
      invariant t.Valid() && t.Repr == old(t.Repr) && t.shape == old(t.shape)
      invariant p != null ==> p in t.Repr
      invariant Find(t.shape, key) == Find(Below(t.shape, p), key)
      decreases Size(Below(t.shape, p))
    {
      WalkStep(t, p, key);
      if p.key == key {
        break;
      } else if p.key < key {
        p := p.right;
      } else {
        p := p.left;
      }
    }
    if p == null {
      return Raise(KeyError);
    }
    Splay(t, p);
    return Ok(p.data);
  }
}
