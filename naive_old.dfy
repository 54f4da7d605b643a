/// `NaiveBST` of the older tree/naive.py. Its `_search`, `search_functional`
/// and `insert` are line for line the code of bstvis/tree/naive.py, so each
/// is that model applied to the same tree, with the same contract.
module NaiveOld {
  import opened BinTree
  import opened Bst
  import NaiveBst

  /** `_search`: the data under `key`, or `KeyError` when the walk falls off. */
  method Search(t: BinaryTree, key: int) returns (r: Outcome<int>)
    requires t.Valid()
    ensures r.Ok? <==> key in KeySet(t.shape)
    ensures r.Ok? ==> exists n :: n in t.Repr && n.key == key && n.data == r.value
    ensures r.Raise? ==> r.error == KeyError
  {
    r := NaiveBst.Search(t, key);
  }

  /** `search_functional`: the recursive walk from the root. */
  function SearchFunctional(t: BinaryTree, key: int): (r: Outcome<int>)
    reads t, t.Repr
    requires t.Valid()
    ensures r.Ok? <==> key in KeySet(t.shape)
    ensures r.Ok? ==> exists n :: n in t.Repr && n.key == key && n.data == r.value
    ensures r.Raise? ==> r.error == KeyError
  {
    NaiveBst.SearchFunctional(t, key)
  }

  /** `insert`: a root for an empty tree, an overwrite for a present key, a
      new leaf for a new key. */
  method Insert(t: BinaryTree, key: int, data: int) returns (inserted: bool)
    requires t.Valid()
    modifies t, t.Repr`data, t.Repr`left, t.Repr`right
    ensures t.Valid() && t.root != null
    ensures inserted <==> key !in old(KeySet(t.shape))
    ensures KeySet(t.shape) == old(KeySet(t.shape)) + {key}
    ensures Find(t.shape, key) != null && Find(t.shape, key).data == data
    ensures !inserted ==> t.shape == old(t.shape) && t.links == old(t.links) && t.Repr == old(t.Repr)
    ensures inserted ==>
      fresh(Find(t.shape, key)) && t.Repr == old(t.Repr) + {Find(t.shape, key)} &&
      t.shape == Attach(old(t.shape), Find(t.shape, key))
    ensures forall n :: n in old(t.Repr) && n.key != key ==> n.data == old(n.data)
  {
    inserted := NaiveBst.Insert(t, key, data);
  }
}
