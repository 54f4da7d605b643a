/// `NaiveBST` of bstvis/tree/naive.py: an unbalanced search tree with the
/// plain walk for lookups, insert-or-update, and the builder that inserts a
/// sorted key list so that the tree comes out of minimum height.
module NaiveBst {
  import opened BinTree
  import opened Bst
  import opened Bits
  import Dsw

  /** `_search`: walk right past smaller keys, left past larger ones, and
      raise `KeyError` on falling off the tree. */
  method Search(t: BinaryTree, key: int) returns (r: Outcome<int>)
    requires t.Valid()
    ensures r.Ok? <==> key in KeySet(t.shape)
    ensures r.Ok? ==> exists n :: n in t.Repr && n.key == key && n.data == r.value
    ensures r.Raise? ==> r.error == KeyError
  {
    var p := t.root;
    FindSpec(t.shape, key);
    while p != null
      invariant p != null ==> p in t.Repr
      invariant Find(t.shape, key) == Find(Below(t.shape, p), key)
      decreases Size(Below(t.shape, p))
    {
      WalkStep(t, p, key);
      if p.key == key {
        return Ok(p.data);
      } else if p.key < key {
        p := p.right;
      } else {
        p := p.left;
      }
    }
    return Raise(KeyError);
  }

  /** The recursive access algorithm `alg` nested in `search_functional`,
      started at `p`: it returns the node holding `key` below `p`, or raises
      `KeyError` on reaching `None`. */
  function Alg(t: BinaryTree, p: Node?, key: int): (r: Outcome<Node>)
    reads t, t.Repr
    requires t.Valid() && (p == null || p in t.Repr)
    ensures r.Ok? <==> Find(Below(t.shape, p), key) != null
    ensures r.Ok? ==> r.value == Find(Below(t.shape, p), key) && r.value in t.Repr
    ensures r.Raise? ==> r.error == KeyError
    decreases Size(Below(t.shape, p))
  {
    if p == null then Raise(KeyError)
    else
      WalkStep(t, p, key);
      var q: Node := p;
      if q.key == key then Ok(q)
      else if p.key < key then Alg(t, p.right, key)
      else Alg(t, p.left, key)
  }

  /** `search_functional`: the data of the node `alg` reaches from the root. */
  function SearchFunctional(t: BinaryTree, key: int): (r: Outcome<int>)
    reads t, t.Repr
    requires t.Valid()
    ensures r.Ok? <==> key in KeySet(t.shape)
    ensures r.Ok? ==> exists n :: n in t.Repr && n.key == key && n.data == r.value
    ensures r.Raise? ==> r.error == KeyError
  {
    FindSpec(t.shape, key);
    match Alg(t, t.root, key)
    case Ok(p) => Ok(p.data)
    case Raise(e) => Raise(e)
  }

  /** `insert`: an empty tree gets the key as its root; a present key only has
      its data overwritten; a new key becomes a leaf where the walk falls off.
      The result says whether a node was added. */
  method Insert(t: BinaryTree, key: int, data: int) returns (inserted: bool)
    requires t.Valid()
    modifies t, t.Repr`data, t.Repr`left, t.Repr`right
    ensures t.Valid() && t.root != null
    ensures inserted <==> key !in old(KeySet(t.shape))
    ensures KeySet(t.shape) == old(KeySet(t.shape)) + {key}
    ensures Find(t.shape, key) != null && Find(t.shape, key).data == data
    ensures !inserted ==> t.shape == old(t.shape) && t.links == old(t.links) && t.Repr == old(t.Repr)
    ensures inserted ==>
      fresh(Find(t.shape, key)) && t.Repr == old(t.Repr) + {Find(t.shape, key)} &&
      t.shape == Attach(old(t.shape), Find(t.shape, key))
    ensures forall n :: n in old(t.Repr) && n.key != key ==> n.data == old(n.data)
  {
    FindSpec(t.shape, key);
    if t.root == null {
      var z := MakeRoot(t, key, data, Black, 1);
      return true;
    }
    var found, parent, isLeft := Locate(t, key);
    if found != null {
      Overwrite(t, found, data);
      return false;
    }
    var z := HookLeaf(t, key, data, parent, isLeft, Black, 1);
    return true;
  }

  /** `f` of `perfect_inserter` (defined for the positive counts it is called
      with): with `x` the largest power of two not above `n`, the index of
      the key to put at the top so that the rest splits into a left part of
      `f(n)` keys and a right part of `n - 1 - f(n)` keys. */
  function F(n: nat): (r: int)
    requires n >= 1
    ensures 0 <= r < n
  {
    BitLengthBounds(n);
    var x := Pow2(BitLength(n) - 1);
    if x / 2 - 1 <= n - x then x - 1 else n - x / 2
  }

  /** The height of the tree the split recursion of `perfect_inserter`
      builds from `n` keys. */
  ghost function SplitHeight(n: nat): nat
  {
    if n == 0 then 0 else 1 + Max(SplitHeight(F(n)), SplitHeight(n - 1 - F(n)))
  }

  function Max(a: nat, b: nat): nat
  {
    if a < b then b else a
  }

  /** Both parts of the split have fewer bits than `n`, and one of them has
      exactly one fewer. */
  lemma PartBits(n: nat)
    requires n >= 1
    ensures BitLength(F(n)) < BitLength(n) && BitLength(n - 1 - F(n)) < BitLength(n)
    ensures Max(BitLength(F(n)), BitLength(n - 1 - F(n))) == BitLength(n) - 1
  {
    BitLengthBounds(n);
    var b := BitLength(n);
    var x := Pow2(b - 1);
    if b == 1 {
      assert n == 1 && F(n) == 0;
    } else {
      var half := Pow2(b - 2);
      assert x == 2 * half && x / 2 == half;
      var f := F(n);
      if half - 1 <= n - x {
        assert f == x - 1;
        SplitWide(n, b, f);
      } else {
        assert f == n - half;
        SplitNarrow(n, b, f);
      }
    }
  }

  /** The first branch of `f`: a left part of `2^(b-1) - 1` keys has one bit
      fewer than `n`, and so has the rest. */
  lemma SplitWide(n: nat, b: nat, f: int)
    requires b >= 2 && Pow2(b - 1) <= n < Pow2(b) && f == Pow2(b - 1) - 1
    ensures f >= 0 && n - 1 - f >= 0
    ensures BitLength(f) == b - 1 && BitLength(n - 1 - f) <= b - 1
  {
    assert Pow2(b) == 2 * Pow2(b - 1) && Pow2(b - 1) == 2 * Pow2(b - 2);
    BitLengthOf(f, b - 1);
    BitLengthBelow(n - 1 - f, b - 1);
  }

  /** The second branch of `f`: the left part takes all but `2^(b-2) - 1`
      keys and has one bit fewer than `n`; the rest has fewer still. */
  lemma SplitNarrow(n: nat, b: nat, f: int)
    requires b >= 2 && Pow2(b - 1) <= n && n - Pow2(b - 1) < Pow2(b - 2) - 1 && f == n - Pow2(b - 2)
    ensures f >= 0 && n - 1 - f >= 0
    ensures BitLength(f) == b - 1 && BitLength(n - 1 - f) < b - 1
  {
    assert Pow2(b - 1) == 2 * Pow2(b - 2);
    BitLengthOf(f, b - 1);
    BitLengthBelow(n - 1 - f, b - 2);
  }

  /** The split recursion builds a tree of the minimum height any binary tree
      on `n` keys can have: the bit length of `n`. */
  lemma {:induction false} SplitHeightIsMinimal(n: nat)
    ensures SplitHeight(n) == BitLength(n)
    decreases n
  {
    if n >= 1 {
      SplitHeightIsMinimal(F(n));
      SplitHeightIsMinimal(n - 1 - F(n));
      PartBits(n);
    }
  }

  /** `perfect_inserter`: insert the key at index `f(n)`, then recurse on the
      keys before it and on the keys after it; nothing for an empty list.
      Python's default `data=None` is 0 here. */
  method PerfectInserter(t: BinaryTree, keys: seq<int>)
    requires t.Valid()
    modifies t, t.Repr`data, t.Repr`left, t.Repr`right
    ensures t.Valid()
    ensures KeySet(t.shape) == old(KeySet(t.shape)) + Elems(keys)
    ensures old(t.Repr) <= t.Repr && fresh(t.Repr - old(t.Repr))
    ensures keys == [] ==> t.shape == old(t.shape)
    decreases |keys|
  {
    var n := |keys|;
    if n == 0 {
      return;
    }
    var x := F(n);
    ghost var r0, k0 := t.Repr, KeySet(t.shape);
    var _ := Insert(t, keys[x], 0);
    ghost var r1, k1 := t.Repr, KeySet(t.shape);
    assert fresh(r1 - r0);
    PerfectInserter(t, keys[..x]);
    ghost var r2, k2 := t.Repr, KeySet(t.shape);
    assert fresh(r2 - r1);
    PerfectInserter(t, keys[x + 1..]);
    assert fresh(t.Repr - r2);
    ElemsSplit(keys, x);
    UnionChain(k0, k1, k2, KeySet(t.shape), {keys[x]}, Elems(keys[..x]), Elems(keys[x + 1..]));
  }

  /** `dsw_algorithm`: the vine phase of `dsw`, then the folding. The flag
      `advanced` is overwritten with true before it is read, so whatever the
      caller passes the Stout-Warren folding runs and the tree comes out of
      the least height its size allows; the Day branch is never taken. */
  method DswAlgorithm(t: BinaryTree, advanced: bool)
    requires t.Valid()
    modifies t, t.Repr`parent, t.Repr`left, t.Repr`right, t.Repr`tree
    ensures t.Valid() && t.Repr == old(t.Repr) && InOrder(t.shape) == old(InOrder(t.shape))
    ensures Height(t.shape) == BitLength(Size(t.shape))
  {
    if t.root == null {
      return;
    }
    var n := Dsw.Vine(t);
    Dsw.StoutWarren(t, n);
  }

  /** The keys of a list. */
  ghost function Elems(s: seq<int>): set<int>
  {
    set k | k in s
  }

  lemma ElemsSplit(s: seq<int>, x: nat)
    requires x < |s|
    ensures Elems(s) == {s[x]} + Elems(s[..x]) + Elems(s[x + 1..])
  {
    assert s == s[..x] + [s[x]] + s[x + 1..];
  }

  lemma UnionChain(k0: set<int>, k1: set<int>, k2: set<int>, k3: set<int>, a: set<int>, b: set<int>, c: set<int>)
    requires k1 == k0 + a && k2 == k1 + b && k3 == k2 + c
    ensures k3 == k0 + (a + b + c)
  {
  }
}
