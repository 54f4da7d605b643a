# bstvis trees in Dafny

A model of the pointer-based binary search trees of bstvis: the plain
(naive) search tree with its perfect-tree builder, the splay tree, the
red-black tree with its join and split, the Day/Stout-Warren rebalancing
and the Tango tree. The trees are built from one local edit, rotating a
node with its parent. The model works on the pointer fields in place.

- `BinTree` holds the node class `Node`. Its fields are the key (fixed), the
  data, parent, left, right, tree, colour, black height, perfect-tree depth,
  the `is_root` mark and the `min_depth`/`max_depth` summaries.
- `BinTree` also holds the tree class `BinaryTree`: a root plus ghost state.
  That state is the shape (a datatype tree of nodes), the node set `Repr` and
  a record of every node's pointer fields. `Valid()` says that the pointers
  follow the shape and that the in-order keys strictly increase.
- `Rotation` is the rotation primitive `RBNode.rotate`. Its effect on the
  shape is `RotateUp` and its effect on the pointers is `Rewire`.
- `Bst` is the shared search walk and the hanging of a new leaf.
- `NaiveBst` and `NaiveOld` model bstvis/tree/naive.py and tree/naive.py.
  `Splay` models tree/splay.py.
- `Dsw` models bstvis/algorithm/dsw.py.
- `RedBlack` models rb.py.
- `AuxTrees`, `AuxForest` and `Tango` model bstvis/tree/tango_strict.py.
  `AuxTrees` reads the auxiliary trees, their roots and their depth
  summaries off the shape and the marks.
- `AuxForest` reads the pointer record with every edge into a marked node
  removed. What is left is one tree per auxiliary tree, and the red-black
  rules of `RedBlack` are read on that forest. "Every auxiliary tree is
  red-black" (`Tango.AuxRedBlack`) means three things: the rules hold on the
  forest, every marked node is black, and the root of the whole tree is
  marked.
- `Bits` holds `int.bit_length` and `1 << k`. `Sorting` holds Python's
  `sorted`.

Python exceptions are results, not aborts. An operation that can raise
returns `Outcome<T>`, which is `Ok(value)` or `Raise(error)`.

- `KeyError`, `AttributeError` and `NotImplementedError` are the Python
  exceptions of those names. `AttributeError` is also how a dereference of
  `None` ends.
- `Inconsistent` is the bare `Exception("??")` of the Tango search.
- `OutOfFuel` marks a loop whose termination the model does not show; it
  ends after `fuel` rounds instead.

Keys and data are integers. The `data=None` default is 0.

## Model

| member | source | states |
|---|---|---|
| Rotation.Rotate | rb.py:33-62 | The rotation primitive leaves a valid tree on the same nodes. The new shape is `RotateUp` of the old one. The pointer record becomes `Rewire` of the old one. The node becomes `tree.root` exactly when its parent was the root. |
| Rotation.Lift | rb.py:33-62 | A rotation of a node that has a parent keeps the in-order sequence. The node takes the parent's place under the grandparent. The old parent becomes its child on the far side and takes over the node's inner subtree. The node rises one level. |
| Rotation.Relink | rb.py:40-62 | The pointer writes of the rotation turn the recorded fields of the nodes into `Rewire` of the old record. |
| Rotation.Repoint | rb.py:40-62 | The writes of each case, one field at a time. The grandparent's child slot is redirected, or else `tree` and `tree.root` move to the node. The inner subtree is re-parented. The old parent goes below the node. |
| Rotation.RotateInOrder | rb.py:33-62 | Any rotation keeps the in-order sequence of the shape. |
| Rotation.RotateNodes | rb.py:33-62 | A rotation keeps the node set and the size, and it adds no repeats. |
| Rotation.RotateTop | rb.py:37-51 | The node becomes the top of the shape exactly when its parent was the top. |
| Rotation.RotateAtTop | rb.py:37-38 | Rotating the top node changes nothing, as the primitive does nothing without a parent. |
| Rotation.RotateDepth | rb.py:53-62 | The node rises one level. Its new subtree holds its outer child on one side and the old parent, carrying the inner child, on the other. |
| Rotation.RotateLinked | rb.py:33-62 | The `Rewire` of pointer fields that follow a shape gives pointer fields that follow the rotated shape. |
| Bst.FindSpec | bstvis/tree/naive.py:16-25 | In a search tree the walk stops at a node holding the key exactly when the key is present. |
| Bst.Locate | bstvis/tree/naive.py:90-105 | The insert walk returns the node holding the key, if there is one. Otherwise it returns the node the walk fell off from, and the side it fell off on. |
| Bst.MakeRoot | bstvis/tree/naive.py:86-88 | An empty tree gets a new node as its root; that node is the tree's only node. |
| Bst.Hook | bstvis/tree/naive.py:107-111 | A new node is hung from the node the walk fell off from, on the side it chose. The shape becomes `Attach` of the old shape. Exactly that node is added. |
| Bst.HookLeaf | bstvis/tree/naive.py:107-111 | After the hanging, the key set is the old one plus the new key, and the walk for that key stops at the new node. |
| Bst.Overwrite | bstvis/tree/naive.py:95-97 | The data of the found node is replaced and the tree stays valid. |
| Bst.AttachBst | bstvis/tree/naive.py:98-111 | A new key hung where the walk ends keeps the search order and adds exactly that key. |
| Bst.AttachInOrder | bstvis/tree/naive.py:98-111 | The new leaf enters the in-order sequence at one position and nothing else moves. |
| Bst.FindAttach | bstvis/tree/naive.py:98-111 | After the hanging, the walk for the new key stops at the new node. |
| NaiveBst.Search | bstvis/tree/naive.py:16-25 | `_search` succeeds exactly when the key is in the tree and returns the data of a node holding it. Otherwise it raises `KeyError`. |
| NaiveBst.Alg | bstvis/tree/naive.py:55-69 | The recursive `alg` reaches a node exactly when the walk from that node finds the key, and the node it reaches is that one. Reaching `None` raises `KeyError`. |
| NaiveBst.SearchFunctional | bstvis/tree/naive.py:32-76 | `search_functional` succeeds exactly when the key is present and returns the data of a node holding it. Otherwise it raises `KeyError`. |
| NaiveBst.Insert | bstvis/tree/naive.py:78-112 | The result is true exactly when the key was new. The key set gains the key and the key's node holds the data. An update changes no shape and no pointer. An insertion adds exactly one fresh node, hung where the walk fell off. No other node's data changes. |
| NaiveBst.F | bstvis/tree/naive.py:130-139 | `f(n)` is an index into the list: `0 <= f(n) < n`. |
| NaiveBst.PartBits | bstvis/tree/naive.py:130-139 | Both parts of the split at `f(n)` have a smaller bit length than `n`, and the larger one has exactly one bit less. |
| NaiveBst.SplitWide | bstvis/tree/naive.py:136-137 | The first branch of `f`: the left part has one bit less than `n`, and the right part no more. |
| NaiveBst.SplitNarrow | bstvis/tree/naive.py:138-139 | The second branch of `f`: the left part has one bit less than `n`, and the right part fewer still. |
| NaiveBst.SplitHeightIsMinimal | bstvis/tree/naive.py:124-148 | The height the split recursion gives `n` keys is `n.bit_length()`, the least height of any binary tree with `n` nodes. |
| NaiveBst.PerfectInserter | bstvis/tree/naive.py:124-148 | The key set grows by exactly the listed keys, the new nodes are fresh, and an empty list changes nothing. |
| NaiveBst.DswAlgorithm | bstvis/tree/naive.py:226-288 | Because `advanced` is forced to true, the result keeps the nodes and the in-order sequence and has the least height its size allows. |
| NaiveOld.Search | tree/naive.py:13-23 | The same as `NaiveBst.Search`: success exactly for present keys, with a holding node's data; otherwise `KeyError`. |
| NaiveOld.SearchFunctional | tree/naive.py:29-70 | The same as `NaiveBst.SearchFunctional`. |
| NaiveOld.Insert | tree/naive.py:72-105 | The same as `NaiveBst.Insert`: insert or update, and the result says which. |
| Splay.SplayStep | tree/splay.py:35-48 | One splay step keeps the nodes and the in-order sequence and moves the node closer to the root. The shape is one rotation of the node (zig), a rotation of the parent then of the node (zig-zig), or two rotations of the node (zig-zag). |
| Splay.ZigZigDepth | tree/splay.py:39-43 | In the zig-zig case the node rises two levels. |
| Splay.ZigZagDepth | tree/splay.py:44-48 | In the zig-zag case the node rises two levels. |
| Splay.Splay | tree/splay.py:33-48 | `_splay` ends with the node as the root, without a parent. The nodes and the in-order sequence are those from before. |
| Splay.SplayKeeping | tree/splay.py:33-48 | Splaying keeps the key set, and the splayed node is the root. |
| Splay.Insert | tree/splay.py:50-86 | After `insert` the root holds the key and the data. The result is true exactly when the key was new, and the key set gains the key. An update keeps the nodes and the in-order sequence. An insertion adds exactly one fresh node, at the in-order place the walk found. No other node's data changes. |
| Splay.Update | tree/splay.py:66-70 | The present-key branch: the data is overwritten and that node is splayed to the root. The in-order sequence, the keys and the other nodes' data stay. |
| Splay.AddLeaf | tree/splay.py:80-86 | The new-key branch: a fresh leaf is hung and splayed to the root. The key set gains the key. |
| Splay.SearchAsWritten | tree/splay.py:16-31 | As written, `search` raises `AttributeError` on an empty tree and `KeyError` on any other tree, even when the key is present. |
| Splay.Search | tree/splay.py:16-31 | With the loop test `p is not None`: success exactly for present keys. The node holding the key is splayed to the root and its data returned. A missing key raises `KeyError` and leaves the shape as it was. |
| RedBlack.RulesBelow | rb.py:188-195 | Where the per-node rules hold everywhere, every path below a node meets the node's black height in black nodes and no red node has a red child. |
| RedBlack.RedBlackRules | rb.py:123-177 | A tree satisfying `RedBlack` has a black root, no red node with a red child, and the root's black height on every path. |
| RedBlack.Parented | rb.py:33-62 | The pointer record of a valid tree has no parent cycles and each node is a child of its parent. |
| RedBlack.RecolorKeeps | rb.py:129-140 | Recolouring a red parent and red uncle black and the grandparent red turns a repair at the child into a repair at the grandparent. |
| RedBlack.TurnKeeps | rb.py:147-149 | Rotating a red inner child over its red parent moves the single red-red fault to the outer child and keeps every other rule. |
| RedBlack.PromoteKeeps | rb.py:150-154 | With a black uncle, painting the parent black, the grandparent red and rotating the parent up keeps the rules, with at most the fault at the child left. |
| RedBlack.SettleKeeps | rb.py:175-177 | Once the node has no red parent, blackening a red root removes the last fault and leaves a valid red-black record. |
| RedBlack.HookKeeps | rb.py:114-120 | Hanging a red leaf of black height 0 into an empty slot of a red-black record leaves only the fault at that leaf. |
| RedBlack.TurnReady | rb.py:147-149 | The same on the tree: after turning, the repair holds at the old parent, now the outer child. |
| RedBlack.PromoteReady | rb.py:150-154 | The same on the tree for the promote case. |
| RedBlack.RecolorReady | rb.py:129-140 | The same on the tree for the recolouring case. |
| RedBlack.Repaint | rb.py:135-153 | One colour write: the node gets the given colour and black height and no other paint changes. |
| RedBlack.TurnOuter | rb.py:147-149 | An inner child is rotated up so that the repair continues from an outer child, no deeper than before. The repair and a black root are kept. |
| RedBlack.PaintPromoted | rb.py:150-153 | The parent turns black with one more black level and the grandparent red with one less, exactly as `Promoted`; a black root stays black. |
| RedBlack.Promote | rb.py:150-154 | The parent is recoloured and rotated over the grandparent: the pointers become `Rewire` at the parent and the paint becomes `Promoted`. The node rises and a black root stays black. |
| RedBlack.Hoist | rb.py:154 | The rotation of the parent over the grandparent, with the root afterwards the parent or still a black node. |
| RedBlack.Rise | rb.py:33-62 | The rotation primitive on the red-black node, with its effect on the three pointers around it. |
| RedBlack.PaintRecoloured | rb.py:135-139 | Parent and uncle turn black with one more black level each and the grandparent turns red, exactly as `Recoloured`. |
| RedBlack.Recolor | rb.py:129-140 | The recolouring case paints as `Recoloured` and hands the repair to the grandparent, two levels up; the repair at the child becomes one at the grandparent. |
| RedBlack.FixupStep | rb.py:125-173 | One round under a red parent hands back a node higher up than the one it started from, with the repair moved there. It raises `AttributeError` only when the red parent has no parent. |
| RedBlack.SettleRoot | rb.py:175-177 | A red root is blackened with one more black level, as `Settled`; the tree then satisfies `RedBlack` when the repair held. |
| RedBlack.InsertFixup | rb.py:123-177 | The repair keeps the nodes and the in-order sequence. From a single red-red fault at the node it ends in a tree satisfying `RedBlack`. A red parent without a grandparent raises `AttributeError`. |
| RedBlack.LoneKeeps | rb.py:91-95 | A lone black root of black height 1 satisfies `RedBlack`. |
| RedBlack.InsertRoot | rb.py:91-95 | The empty tree gets a fresh black root of black height 1 holding the key, which satisfies `RedBlack`. |
| RedBlack.InsertLeaf | rb.py:114-121 | A fresh red leaf is hung where the walk fell off and `_insert_fixup` runs. The node set gains exactly the fresh node and the in-order sequence gains its key. A red-black tree stays red-black. |
| RedBlack.Place | rb.py:97-121 | On a non-empty tree: a present key only updates its data and gives `False`; a new key hangs a fresh node. A black root stays black and a red-black tree stays red-black. |
| RedBlack.Insert | rb.py:85-121 | An empty tree gets a black root of black height 1 and `True`. A present key is updated with no change to the shape and gives `False`. A new key gets one fresh node and the result `None`, since that path has no `return`; a red root then raises `AttributeError` in the fixup. A red-black tree stays red-black, and the key set gains the key. |
| RedBlack.InsertReturningTrue | rb.py:85-121 | The same steps, returning true exactly when the key was new, as the docstring promises. A red-black tree stays red-black. |
| RedBlack.OffsideDarken | rb.py:196-203 | Blackening a red child of the pivot keeps the children's subtrees red-black. |
| RedBlack.SinkKeeps | rb.py:212-239 | Rotating the carried child over the pivot keeps the pivot's sunk state, and the next carried child still reaches the bound. |
| RedBlack.SunkRepair | rb.py:231-239 | A red pivot whose two children are black of its black height leaves a single fault at the pivot. |
| RedBlack.EvenKeeps | rb.py:205-223 | A black pivot one level above two red-black children of equal black height is a red-black tree. |
| RedBlack.BlackenChild | rb.py:196-203 | A child of the pivot turns black, gaining a black level if it was red; the children's subtrees stay red-black. |
| RedBlack.BlackenSides | rb.py:196-203 | Both children of the pivot are blackened; the pivot is untouched. |
| RedBlack.Crown | rb.py:205-207 | The pivot turns black at the given height; with both children one level below, the tree is red-black. |
| RedBlack.Lean | rb.py:208-220 | The one-child cases: the pivot sinks to a leaf and turns red of height 0, leaving a single fault at it. |
| RedBlack.Descent | rb.py:224-239 | The unequal cases: the pivot turns red at the lower height and sinks until its child on the taller side is black at that height, leaving a single fault at it. |
| RedBlack.Descend | rb.py:196-239 | The case analysis of `_join` before the fixup: a leaf pivot turns black of height 1, equal heights give a black pivot one level up, and a red pivot is left with a single fault. |
| RedBlack.RaiseChild | rb.py:213-239 | Rotating a child of `x` up sinks `x` one level. `x` takes over that child's inner subtree and keeps its other child. |
| RedBlack.SinkStep | rb.py:234 | One rotation of the carried child sinks the pivot one level and keeps the sunk state. |
| RedBlack.SinkAll | rb.py:208-220 | The loops `while x.right: x.right.rotate()` and `while x.left: x.left.rotate()` end with `x` a leaf, in the same in-order position. |
| RedBlack.SinkTo | rb.py:224-239 | The loop sinks `x` until its child on that side is black and no higher than the bound. A missing child raises `AttributeError`. |
| RedBlack.Join | rb.py:188-242 | `_join` keeps the nodes and the in-order sequence. With no children the pivot becomes black with black height 1. With equal black heights it becomes black one level above them. When both subtrees are red-black, the result is a red-black tree. `None` raises. |
| RedBlack.Split | rb.py:244-268 | An absent key raises `KeyError` and nothing else does. Otherwise the node holding the key ends at the root, and the nodes and the in-order sequence stay. |
| Dsw.Vine | bstvis/algorithm/dsw.py:29-47 | Phase 1 leaves a right vine on the same nodes and in-order sequence. The count `n` is the number of nodes. |
| Dsw.ToMax | bstvis/algorithm/dsw.py:34-35 | The first loop stops at the end of the right spine, a node without a right child. |
| Dsw.ClearLeft | bstvis/algorithm/dsw.py:40-41 | Rotating left children up until none is left keeps the vine below the node and the in-order sequence. |
| Dsw.RotateLeftChild | bstvis/algorithm/dsw.py:41 | One rotation moves the node one step down the spine with a smaller left subtree. |
| Dsw.StepUp | bstvis/algorithm/dsw.py:44-46 | Stepping to the parent counts one more vine node. Without a parent nothing changes. |
| Dsw.Compress | bstvis/algorithm/dsw.py:52-60 | `compress(t.root, count)` succeeds exactly when `count <= 0` or the spine holds at least `2 * count` nodes, and the shape becomes `CompressShape`. Running off the spine raises `AttributeError`. The in-order sequence stays in every case. |
| Dsw.Round | bstvis/algorithm/dsw.py:56-60 | Round `c + 1` rotates the node `2c + 1` steps down the original spine and lands two steps further. |
| Dsw.Fold | bstvis/algorithm/dsw.py:52-60 | When the spine is long enough, `compress` never raises and gives `CompressShape`. |
| Dsw.CompressFacts | bstvis/algorithm/dsw.py:52-60 | Compression keeps the in-order sequence, the nodes and their distinctness. |
| Dsw.CompressSpine | bstvis/algorithm/dsw.py:52-60 | Compressing `k` times shortens the spine by `k`. It keeps every second node on the spine, and the untouched rest continues below. |
| Dsw.CompressStep | bstvis/algorithm/dsw.py:56-60 | Round `c + 1` is the rotation of the node `2c + 1` steps down the original spine. |
| Dsw.Day | bstvis/algorithm/dsw.py:63-74 | The Day loop stays within the spine in every round, so it never raises. It keeps the nodes and the in-order sequence. |
| Dsw.DayStep | bstvis/algorithm/dsw.py:73-74 | `n -= m + 1` and `m = n // 2` decrease `n` and keep `2 * m` within the spine. |
| Dsw.StoutWarren | bstvis/algorithm/dsw.py:76-83 | On a vine of `n` nodes the Stout-Warren branch gives a tree of height `n.bit_length()`, the least any tree of `n` nodes has. |
| Dsw.Halving | bstvis/algorithm/dsw.py:81-83 | The loop of `d //= 2` and compress ends at the least height. |
| Dsw.SurplusCount | bstvis/algorithm/dsw.py:78-80 | With `d = 2^j - 1` for the `j` of `(n+1).bit_length() - 1`, the surplus `n - d` fits in half the vine. `n.bit_length()` is `j`, or `j + 1` when `n != d`. |
| Dsw.Halve | bstvis/algorithm/dsw.py:82 | `d //= 2` on `2^j - 1` gives `2^(j-1) - 1`. |
| Dsw.FoldingStart | bstvis/algorithm/dsw.py:78-80 | The first compression by `n - d` fits the vine and reaches the folding state for `d`. |
| Dsw.FoldingNext | bstvis/algorithm/dsw.py:81-83 | Each later round fits the spine and keeps the folding state, one power of two down. |
| Dsw.FoldingEnd | bstvis/algorithm/dsw.py:81-83 | When `d` reaches 0, the height is `n.bit_length()`. |
| Dsw.HeightAtLeast | bstvis/algorithm/dsw.py:5-8 | A tree of height `h` has fewer than `2^h` nodes, so no tree of `n` nodes is lower than `n.bit_length()`. |
| Dsw.Dsw | bstvis/algorithm/dsw.py:19-83 | `dsw` keeps the nodes and the in-order sequence. An empty tree is left as it was. With `advanced` the height is the least the size allows. |
| Tango.UpdateDepths | bstvis/tree/tango_strict.py:155-172 | `_update_depths` sets the summaries to the fold of the node's depth with the summaries of its continuing children. Children that are `None` or marked (`is_root_or_None`, lines 115-120) are skipped. Afterwards `min_depth <= depth <= max_depth`. |
| Tango.SummaryHere | bstvis/tree/tango_strict.py:155-172 | Folding correct child summaries gives the minimum and maximum depth of the node's auxiliary subtree. |
| Tango.SwapMarks | bstvis/tree/tango_strict.py:247 | The `is_root` flags of the node and its old parent are exchanged. The set of marked nodes becomes the old one with the two flags exchanged, and the colours stay. |
| Tango.TangoLift | bstvis/tree/tango_strict.py:192-252 | The rotation primitive, the flag exchange and the refold. The shape is `RotateUp` of the old one and the in-order sequence stays. The two flags are exchanged, no other node's flag or summaries change, and both summaries are refolded. |
| Tango.Refresh | bstvis/tree/tango_strict.py:249-252 | The old parent's summaries are refolded first, then the node's. |
| Tango.Exchange | bstvis/tree/tango_strict.py:242-252 | The flag exchange and the refold after the primitive. |
| Tango.TangoRotate | bstvis/tree/tango_strict.py:174-252 | Without a parent, `rotate` changes nothing. Otherwise the shape is `RotateUp` of the old one and the in-order sequence stays. The marks of the node and its parent are swapped. When all summaries were correct and a marked node's parent is marked too, all summaries are correct afterwards. |
| Tango.RotateSummaries | bstvis/tree/tango_strict.py:242-252 | After a rotation with the marks exchanged and both touched nodes refolded, every summary is correct again. |
| Tango.SummarisedAccurate | bstvis/tree/tango_strict.py:155-172 | Correct summaries everywhere are correct off any path. |
| Tango.RefoldHere | bstvis/tree/tango_strict.py:155-172 | Refolding the lowest stale node from correct children makes its summaries correct. |
| Tango.RefoldParent | bstvis/tree/tango_strict.py:1075-1077 | Refolding the parent of a correct node moves the stale path up by one node. |
| Tango.RefoldDone | bstvis/tree/tango_strict.py:1075-1080 | Once the refold reaches the auxiliary root or the top, every summary is correct. |
| Tango.MarkMoved | bstvis/tree/tango_strict.py:1038-1043 | Changing one mark leaves every summary correct except on the path from the node's parent to that parent's auxiliary root. |
| Tango.WalkStart | bstvis/tree/tango_strict.py:748-772 | With correct summaries and `max_depth > d`, the walk starts with a deeper node ahead of it. |
| Tango.WalkNear | bstvis/tree/tango_strict.py:749-751 | Stepping to the near child whose `max_depth > d` keeps the deepest node ahead. |
| Tango.WalkFar | bstvis/tree/tango_strict.py:767-770 | When neither the near child nor the node is deeper than `d`, the far child exists, continues the auxiliary tree and holds the node sought. |
| Tango.WalkFound | bstvis/tree/tango_strict.py:763-764 | When the near side holds nothing deeper and the node is deeper than `d`, it is the first (or last) such node of the auxiliary subtree. |
| Tango.Refound | bstvis/tree/tango_strict.py:1081 | The closing `_aux_search` for the node's key from its auxiliary root finds that very node. |
| Tango.AllMarkedSummarised | bstvis/tree/tango_strict.py:297-306 | When every node is marked and has its depth as both summaries, every summary is correct. |
| Tango.InsertFixup | bstvis/tree/tango_strict.py:609-671 | The repair keeps the nodes and the in-order sequence, and it stops at the auxiliary root. The node it returns is black when marked, and has a black parent otherwise. A missing grandparent raises `AttributeError`. From a single red-red fault at the red node `p` (`Tango.Ready`: the rules hold on the forest but for that fault, and every other marked node is black), it does not raise and ends with every auxiliary tree red-black. The number of marked nodes is kept. |
| Tango.FixupStep | bstvis/tree/tango_strict.py:616-664 | One round hands back a node higher up. It raises `AttributeError` only when the red parent has no parent. From a fault at an unmarked node it does not raise, and the fault is repaired or moved to the node it hands back. The number of marked nodes is kept. |
| Tango.TurnOuter | bstvis/tree/tango_strict.py:638-659 | An inner child is rotated up so that the repair continues from an outer child, no deeper than before. The fault moves with it: the new node is unmarked, its parent is red, and the rest of the state is still a single fault. The number of marked nodes is kept. |
| Tango.Promote | bstvis/tree/tango_strict.py:641-664 | The parent is rotated over the grandparent and the node rises. On the pointer record this is `Rewire` at the parent. The grandparent's mark passes to the parent, and the paints are the two swaps of colour and black height. The number of marked nodes is kept. |
| Tango.PromoteStep | bstvis/tree/tango_strict.py:641-645 | From a fault at an unmarked outer child with a red parent and a black or missing uncle, the rotation over the grandparent leaves a state the climb's end accepts. The number of marked nodes is kept. |
| Tango.RecolorStep | bstvis/tree/tango_strict.py:620-631 | With a red uncle, parent and uncle turn black and gain a level, and the grandparent turns red. The fault moves to the grandparent. The set of marked nodes is unchanged. |
| Tango.SettleMark | bstvis/tree/tango_strict.py:667-669 | After the climb stops, a red marked node turns black and gains a level. From a single fault every auxiliary tree is then red-black. The set of marked nodes is unchanged. |
| Tango.TurnCut | bstvis/tree/tango_strict.py:638-640 | On the forest, the inner rotation moves the fault to the old parent. Both nodes are unmarked, so the rotation stays within their auxiliary tree. |
| Tango.PromoteCut | bstvis/tree/tango_strict.py:641-645 | On the forest, the red unmarked parent rotates over the grandparent, which may be marked. The paints of the two are exchanged and the fault is repaired. |
| Tango.RecolorCut | bstvis/tree/tango_strict.py:626-631 | A red parent and a red uncle are both unmarked. The recolouring on the forest moves the fault to the grandparent. |
| Tango.SettleCut | bstvis/tree/tango_strict.py:616-669 | When the climb stops at a marked node or below a black parent, blackening a red marked node gives red-black rules on the whole forest with every marked node black. |
| AuxForest.ViewRotate | bstvis/tree/tango_strict.py:174-252 | Rotating an unmarked node over its parent and exchanging the two marks is the same rotation on the forest. |
| AuxForest.PromotedForest | bstvis/tree/tango_strict.py:641-645 | The repair proved on the rotated forest holds on the forest of the rotated pointer record, and the marked nodes other than the faulty one stay black. |
| AuxForest.DarkenForest | bstvis/tree/tango_strict.py:501-508 | Blackening a child of the top of a concatenation keeps the rules below the top and keeps the marked nodes black. A marked child is already black. |
| AuxForest.SinkForest | bstvis/tree/tango_strict.py:533-579 | One rotation of the sinking loops keeps the rules with the sinking node spliced out. The rotated child takes over a mark of the sinking node, so that node is then unmarked. The child that is carried next has a black height no lower than the bound. |
| Tango.Rise | bstvis/tree/tango_strict.py:174-236 | The rotation primitive on the Tango node, with its effect on all three pointers around the node. The two nodes exchange their flags, so the number of marked nodes is kept. |
| Tango.RaiseChild | bstvis/tree/tango_strict.py:534-589 | Rotating a child of `x` up sinks `x` one level. `x` keeps its other child, and whether that child continues the auxiliary tree. On the pointer record this is `Rewire` at the child, with the marks of the two exchanged. No paint changes, and a marked root stays marked. The number of marked nodes is kept. |
| Tango.SinkCut | bstvis/tree/tango_strict.py:533-589 | One rotation of a sinking loop keeps the loop's invariant (`Tango.Sinkable`): the rules hold with `x` spliced out, and the marked nodes other than `x` are black. The carried child that follows is no lower than the bound. |
| Tango.SinkAll | bstvis/tree/tango_strict.py:533-549 | Rotating the continuing child up until there is none leaves `x` without a continuing child on that side. No paint changes, and the invariant of the sinking loop is kept. The number of marked nodes is kept. |
| Tango.SinkTo | bstvis/tree/tango_strict.py:578-589 | The loop sinks `x` until its child on that side is black and no higher than the bound. A missing child raises `AttributeError`. When the carried subtree is at least as high as a bound of at least 1, the loop does not raise. It ends at an unmarked black child of exactly that black height, with the invariant kept. The number of marked nodes is kept. |
| Tango.BlackenCut | bstvis/tree/tango_strict.py:501-508 | Both subtree roots turn black, and a red one gains a level. The top keeps its paint, and the state a concatenation expects (`Tango.Concatenable`) is kept. The set of marked nodes is unchanged. |
| Tango.GroundedCut | bstvis/tree/tango_strict.py:488-489 | Below the top of a concatenation, no black height is negative and a black node has at least one black level. |
| Tango.Crown | bstvis/tree/tango_strict.py:517-563 | The top turns black with the given black height. When that height is one above both continuing subtrees, every auxiliary tree is red-black. The set of marked nodes is unchanged. |
| Tango.Lean | bstvis/tree/tango_strict.py:528-552 | The top sinks until it has no continuing child, then turns red with black height 0. From a concatenation whose carried child is black, a single fault at the top is all that is left. The number of marked nodes is kept. |
| Tango.Redden | bstvis/tree/tango_strict.py:576-587 | The top turns red with the lower black height. From a concatenation, the sinking walk may start, and the other child keeps its black height. |
| Tango.Descent | bstvis/tree/tango_strict.py:565-589 | The top turns red with the lower black height and sinks into the higher subtree. From a concatenation with a black carried subtree at least that high and a black other child of exactly that height, it does not raise and leaves a single fault at the top. The number of marked nodes is kept. |
| Tango.DescentOf | bstvis/tree/tango_strict.py:565-589 | Two black continuing subtrees of different black heights meet what `Tango.Descent` needs, and the lower one has at least one black level. |
| Tango.StopTests | bstvis/tree/tango_strict.py:695-697 | The stop test as written (`if root_key and ...`) implies the intended one. The two differ exactly when the root key is 0 and the parent's key is 0. |
| Tango.SearchStep | bstvis/tree/tango_strict.py:450-466 | Each step of `_aux_search` stays inside the auxiliary tree. When no continuing child exists on the key's side, the key is absent from it. |
| Tango.PredecessorBelow | bstvis/tree/tango_strict.py:1097-1102 | The far right end of the left child's part is the in-order predecessor within the auxiliary tree. |
| Tango.SuccessorBelow | bstvis/tree/tango_strict.py:1134-1139 | The far left end of the right child's part is the in-order successor within the auxiliary tree. |
| Tango.ParentPrecedes | bstvis/tree/tango_strict.py:1116-1117 | Arriving from a right child, the parent is the predecessor within the auxiliary tree. |
| Tango.ParentSucceeds | bstvis/tree/tango_strict.py:1153-1154 | Arriving from a left child, the parent is the successor within the auxiliary tree. |
| Tango.ClimbAtRoot | bstvis/tree/tango_strict.py:1110-1115 | When the climb reaches the auxiliary root, `p` has no predecessor (or successor) in its auxiliary tree, and the search from the root returns `p`. The successor climb at lines 1147-1152 is the mirror image. |
| Tango.TangoTree.constructor | bstvis/tree/tango_strict.py:282-290 | An empty tree, still under construction. |
| Tango.TangoTree.AuxSearch | bstvis/tree/tango_strict.py:440-471 | The result lies in the auxiliary tree below the root. If it does not hold the key, no node of that auxiliary tree does, and there is no continuing child on the key's side. |
| Tango.TangoTree.GoToRoot | bstvis/tree/tango_strict.py:473-484 | `None` gives `None`. Otherwise the result is the marked root of the node's auxiliary tree. `AttributeError` is raised exactly when there is no such marked root. |
| Tango.TangoTree.PredecessorAbove | bstvis/tree/tango_strict.py:1109-1119 | The climb returns `(q, True)` with `q` the predecessor within the auxiliary tree. Or it returns `(p, False)` when no key of that tree is smaller. |
| Tango.TangoTree.SuccessorAbove | bstvis/tree/tango_strict.py:1146-1156 | The mirror image for the successor. |
| Tango.TangoTree.FindPredecessor | bstvis/tree/tango_strict.py:1086-1119 | `(q, True)` with `q` the in-order predecessor of `p` within its auxiliary tree. Or `(p, False)` when no key of that tree is smaller. An unmarked top raises `AttributeError`. |
| Tango.TangoTree.FindSuccessor | bstvis/tree/tango_strict.py:1121-1156 | `(q, True)` with `q` the in-order successor within the auxiliary tree. Or `(p, False)` when no key there is larger. |
| Tango.TangoTree.Concatenate | bstvis/tree/tango_strict.py:486-607 | The nodes and the in-order sequence stay, and the result sits below the pivot's old parent. Two non-continuing sides give a black pivot of black height 1, unrotated. Equal black heights give a black pivot one level above them. When the pivot is marked and its two subtrees are red-black trees up to the next marks (their roots may be red), every auxiliary tree is red-black afterwards, and without an old parent the call does not raise. Its rotations only exchange flags, so the number of marked nodes is kept on every path. |
| Tango.TangoTree.Merge | bstvis/tree/tango_strict.py:510-607 | After the blackening, the parent's key is saved, the case is settled and the result is reattached. The nodes and the in-order sequence stay, and the result sits below the old parent. The two black cases give the same pivot as `Concatenate`. From a concatenation with black subtree roots, every auxiliary tree ends red-black, and without an old parent the call does not raise. The number of marked nodes is kept. |
| Tango.TangoTree.Settle | bstvis/tree/tango_strict.py:517-589 | The case analysis of `_aux_concatenate` keeps the in-order sequence. It gives the two black cases without rotation. From a concatenation with black subtree roots it does not raise. It leaves either a red top with a single fault or a black top with every auxiliary tree red-black. The number of marked nodes is kept. |
| Tango.TangoTree.Reattach | bstvis/tree/tango_strict.py:592-607 | A red pivot is repaired, then the walk climbs to the node just below the old parent. A black pivot still below it is the answer itself. From the state `Settle` leaves, every auxiliary tree ends red-black, and without an old parent the call does not raise. The number of marked nodes is kept. |
| Tango.TangoTree.Repair | bstvis/tree/tango_strict.py:592-593 | A red top goes to `_insert_fixup`, and a black one is left as it is. From the state `Settle` leaves, it does not raise and every auxiliary tree ends red-black. The number of marked nodes is kept. |
| Tango.TangoTree.ClimbBelow | bstvis/tree/tango_strict.py:597-603 | The climb by parent key ends at the node whose parent is the pivot's old parent. Running off the top raises `AttributeError`. Without a parent key, the climb to the structural root always succeeds. |
| Tango.TangoTree.AuxSplit | bstvis/tree/tango_strict.py:673-715 | `_aux_split` keeps the nodes and the in-order sequence. A root key equal to the node's key returns at once with nothing changed. On success it returns the node, which is then marked, or holds the root key, or has just passed a parent holding the root key (`root_key is not None`); no earlier parent stopped the loop. Errors are `AttributeError` or `OutOfFuel`. The number of marked nodes is kept on every path. |
| Tango.TangoTree.AuxSplitAsWritten | bstvis/tree/tango_strict.py:692-715 | The same loop with the stop test as written, `if root_key and ...`: with a root key of 0 a parent holding 0 does not stop it, so success means the node is marked or holds key 0. |
| Tango.TangoTree.SplitLoop | bstvis/tree/tango_strict.py:695-715 | The loop `while not p.is_root and not found_root_key` ends with the node marked or right after passing a parent that meets the stop test, and no earlier parent met it. The number of marked nodes is kept. |
| Tango.TangoTree.SplitStep | bstvis/tree/tango_strict.py:699-711 | One round rotates the node up and concatenates the subtree it left behind. The number of marked nodes is kept. |
| Tango.TangoTree.AuxUpdateDepths | bstvis/tree/tango_strict.py:1061-1082 | The node's summaries are refolded, then those of every ancestor in its auxiliary tree. `AttributeError` is raised exactly when there is no marked auxiliary root. When the summaries were correct except on the path from the node to its auxiliary root, they are all correct afterwards, and correct summaries stay correct. |
| Tango.TangoTree.RefreshAbove | bstvis/tree/tango_strict.py:1075-1080 | The climb refolds the proper ancestors up to the auxiliary root and returns it, raising exactly when that root is not marked. Summaries that were wrong only above the node become correct. |
| Tango.TangoTree.RefreshParent | bstvis/tree/tango_strict.py:1076-1077 | One step of the climb refolds the parent, a higher node of the same auxiliary tree; the summaries that were wrong only on the path above shrink by that node. |
| Tango.TangoTree.Refold | bstvis/tree/tango_strict.py:1072 | `p._update_depths()` on the lowest stale node makes its summaries correct. |
| Tango.TangoTree.SetRootMark | bstvis/tree/tango_strict.py:1031-1059 | The flag is set and the marked set changes by exactly that node. `None` raises `AttributeError` and changes nothing. With a parent, the result raises exactly when the parent's auxiliary tree has no marked root. Correct summaries stay correct after the mark changes. |
| Tango.TangoTree.SetMark | bstvis/tree/tango_strict.py:1038 | `p.is_root = mark`; the marked set changes by exactly `p`. Afterwards the summaries are correct, except on the path from `p`'s parent to its auxiliary root. |
| Tango.TangoTree.FindDeep | bstvis/tree/tango_strict.py:748-817 | The walks of `_cut` end at a node deeper than `d`. With correct summaries and `max_depth > d` they succeed, and the node found is the first (left walk) or last (right walk) node of the auxiliary subtree deeper than `d`; the 'Case not covered' branch cannot be reached. |
| Tango.TangoTree.ClimbToKey | bstvis/tree/tango_strict.py:852-992 | `while p.key != key: p = p.parent` ends at a node holding the key. Otherwise it raises `AttributeError`. |
| Tango.TangoTree.Rejoin | bstvis/tree/tango_strict.py:846-993 | The closing concatenations keep the nodes and the in-order sequence. With none to do, nothing changes. The number of marked nodes is kept. |
| Tango.TangoTree.MarkRejoin | bstvis/tree/tango_strict.py:844-993 | The mark is set or cleared and the pieces are concatenated back. Setting adds at most one marked node and clearing removes at most one, on every path. `None` raises `AttributeError`. |
| Tango.TangoTree.Cut | bstvis/tree/tango_strict.py:717-859 | `_cut` keeps the nodes and the in-order sequence. When the auxiliary root's `max_depth <= d`, it returns that root with nothing changed. Otherwise it adds at most one marked node, the root of the split-off part, and its splits and concatenations keep the rest. `None` raises `AttributeError`. |
| Tango.TangoTree.CutBelow | bstvis/tree/tango_strict.py:748-859 | The two splits, the mark and the concatenations keep the nodes and the in-order sequence. At most one marked node is added. |
| Tango.TangoTree.CutRight | bstvis/tree/tango_strict.py:803-859 | The second half of `_cut` keeps the nodes and the in-order sequence. At most one marked node is added. |
| Tango.TangoTree.SplitLeft | bstvis/tree/tango_strict.py:781-795 | With a predecessor, the split returns it together with the key of its right child. Without one, it returns the auxiliary root together with that root's own key. The number of marked nodes is kept. |
| Tango.TangoTree.SplitRight | bstvis/tree/tango_strict.py:823-838 | With a successor, the split returns its left child; without one, the node itself. Only the split can raise. The number of marked nodes is kept. |
| Tango.TangoTree.Join | bstvis/tree/tango_strict.py:940-1029 | `_join` keeps the nodes and the in-order sequence. It removes at most one marked node, the root of the bottom part, and its splits and concatenations keep the rest. `None` raises `AttributeError`. |
| Tango.TangoTree.JoinAt | bstvis/tree/tango_strict.py:959-1024 | Both cases of `_join` keep the nodes and the in-order sequence. At most one marked node is removed. |
| Tango.TangoTree.JoinRest | bstvis/tree/tango_strict.py:974-1024 | The rest of `_join` keeps the nodes and the in-order sequence. At most one marked node is removed. |
| Tango.TangoTree.JoinMiddle | bstvis/tree/tango_strict.py:976-1011 | With a neighbour, it splits there and takes the child on the near side. Without one, it takes the far child of the node, with nothing changed. The number of marked nodes is kept. |
| Tango.TangoTree.Search | bstvis/tree/tango_strict.py:338-438 | `search` keeps the nodes and the in-order sequence, and returns only for keys of the tree. Its result is a node of the tree. Either it holds the key, or no node of the auxiliary tree it was found in holds the key (`Tango.Misses`). |
| Tango.TangoTree.Reroute | bstvis/tree/tango_strict.py:365-382 | The change of preferred paths keeps the nodes and the in-order sequence. A key met in the top part raises `Inconsistent`. One cut and one join change the number of marked nodes by at most one. |
| Tango.TangoTree.Finish | bstvis/tree/tango_strict.py:391-438 | The final cut and join keep the nodes and the in-order sequence and change the number of marked nodes by at most one. The node returned holds the key, or no node of its auxiliary tree does. |
| Tango.TangoTree.JoinPredecessor | bstvis/tree/tango_strict.py:398-431 | The walk towards the predecessor and the join of the marked node it ends at keep the nodes and the in-order sequence. They remove at most one marked node. |
| Tango.TangoTree.SearchFromRoot | bstvis/tree/tango_strict.py:433-436 | `_aux_go_to_root` followed by `_aux_search` returns a node that holds the key, or one whose auxiliary tree has no node holding it. An unmarked structural root raises `AttributeError`. |
| Tango.TangoTree.PredecessorRoot | bstvis/tree/tango_strict.py:420-424 | The walk stops at a marked node or at one without a right child. |
| Tango.TangoTree.Insert | bstvis/tree/tango_strict.py:308-336 | Once construction is over, `insert` raises `NotImplementedError` and changes nothing. Otherwise the key is added as one fresh node, hung where the walk ends, marked, black and of black height 1. |
| Tango.TangoTree.AddKey | bstvis/tree/tango_strict.py:314-336 | An insertion during construction adds exactly the key. |
| Tango.TangoTree.PerfectInserter | bstvis/tree/naive.py:124-148 | `perfect_inserter` on the Tango tree adds exactly the listed keys as marked black nodes. |
| Tango.TangoTree.InsertParts | bstvis/tree/naive.py:147-148 | The two recursive calls add exactly the keys before and after the split index. |
| Tango.TangoTree.Build | bstvis/tree/tango_strict.py:290-306 | Construction ends with insertion closed and the keys in a valid tree. Every node is its own auxiliary tree and has its depth in the tree as depth, `min_depth` and `max_depth`. |
| Tango.TangoTree.SetDepths | bstvis/tree/tango_strict.py:297-306 | After `fix_depth` from the root every node's depth is its depth in the tree, and every summary is correct. |
| Tango.TangoTree.FixDepth | bstvis/tree/tango_strict.py:298-304 | `fix_depth(node, d)` gives every node of the subtree `d` plus its depth there, as depth and as both summaries. |
| Tango.New | bstvis/tree/tango_strict.py:282-306 | `TangoTree(keys)` raises `AttributeError` exactly for an empty key list. Otherwise the tree is built on exactly those keys. |
| Sorting.Sorted | bstvis/tree/tango_strict.py:294 | `sorted(keys)` is ascending and a permutation of the keys. |
| Sorting.InsertSorted | bstvis/tree/tango_strict.py:294 | One key put into its place keeps the list ascending and adds exactly that key. |
| Sorting.SortedIncreasing | bstvis/tree/tango_strict.py:294 | Sorting keys without repeats gives a strictly increasing list. |
| Sorting.SortedKeys | bstvis/tree/tango_strict.py:294 | Sorting keeps the set of keys. |
| Bits.BitLengthBounds | bstvis/tree/naive.py:135 | `2^(b-1) <= x < 2^b` for the bit length `b` of a positive `x`. |
| Bits.BitLengthOf | bstvis/tree/naive.py:135 | Those bounds determine the bit length. |

## Left out

- Drawing and viewing: every `view(...)` call and `print` is a no-op. The viewer, the Tk and matplotlib code, the layout and the demo drivers are not modelled.
- bstvis/tree/naive.py `search` dereferences `.data` on the data `_search` already returned. The model has `_search` and `search_functional` only.
- `delete` is `pass` in every tree and is not modelled.
- tree/naive.py `dsw_algorithm`: its phase 1 is the vine of `Dsw.Vine`. Its phase 2 (`x *= 1`) never ends for three or more nodes, and a non-terminating loop is not modelled.
- The unseen `bintree` module is not part of this model. `Node` and `BinaryTree` carry only the fields the trees use.
- Python's `None` data is the integer 0, and keys are integers rather than any ordered type.
- RedBlack.Split: the loop runs on `fuel` rounds, because the repair inside each `_join` may rotate the node down again and no bound on the rounds is proved; running out gives `OutOfFuel`.
- Tango.TangoTree.Search: the returned node is proved to hold the key, or else to sit in an auxiliary tree that has no node holding it. That the key's node lies in the auxiliary tree reached after the final cut and join is not proved. It rests on the preferred-path invariant: each auxiliary tree is one path of the reference tree, whose depths are the `depth` fields. The model does not carry that invariant, because `_cut` and `_join` are followed only through the in-order sequence and the number of marks (see the next two lines).
- Tango.TangoTree.Cut: which node receives the new mark is not stated; only that at most one mark is added and none is removed. Naming it would need `_aux_split` to be followed node by node: which subtree ends up below the separator, and where the concatenations inside it move the nodes. The model follows `_aux_split` only through the in-order sequence and the number of marks.
- Tango.TangoTree.Join: which mark is cleared is not stated; only that at most one is removed and none is added. The reason is the one given for `Tango.TangoTree.Cut`: the splits are followed only through the in-order sequence and the number of marks.
- Tango.TangoTree.Concatenate: the red-black result is stated only for a marked pivot, such as the auxiliary root that the last concatenation of `_cut` acts on (bstvis/tree/tango_strict.py:850-854). The concatenations inside `_aux_split` act on an unmarked pivot below a separator, where the source itself says the whole tree is no longer red-black and only the children of `p` are (bstvis/tree/tango_strict.py:680-681). With an old parent, the call is not shown to succeed: that would need the old parent to stay an ancestor through the repair, which is not proved.
- Tango.TangoTree.Settle: the red-black outcome is stated only from a concatenation whose subtree roots are black. `BlackenCut` establishes that in `Concatenate`.
- Tango.TangoTree.AuxSplit: which marks the loop moves is not stated. Each rotation, including those inside the concatenations, exchanges the flags of a node and its parent, and nothing else sets or clears a flag. So only the number of marked nodes is stated, and that it is kept.
- Tango.TangoTree.AuxSplit: the loop runs on `fuel` rounds, since its termination rests on invariants not proved here; running out gives `OutOfFuel`. `_cut`, `_join` and `search` pass that fuel on, and the search loop spends one unit per change of preferred paths.
- Tango.TangoTree.Insert: requires a new key. The source's walk has no case for an equal key and would loop forever on one.
- Tango.New: requires keys without repeats, for the same reason. The perfect shape of the built tree is not stated; `NaiveBst.SplitHeightIsMinimal` gives the height of the split.
- NaiveBst.PerfectInserter: the height of the resulting tree is not stated; `NaiveBst.SplitHeightIsMinimal` states it for the split recursion.
- Dsw.Dsw: for the Day branch only the kept nodes and in-order sequence are stated; its near-perfect height is not proved.
- Dsw.Day: the near-perfect height of the Day branch is not proved; only that its compressions fit the spine and keep the nodes and the in-order sequence.

## Findings

| source | as written | input that shows it | evidently intended | confidence | as-written member | corrected member |
|---|---|---|---|---|---|---|
| tree/splay.py:18 | `while p is None:` skips the walk for every non-empty tree, and the `else` clause raises `KeyError` | any tree holding the key, e.g. one node with key 1, then `search(1)` | `while p is not None:`, so that a present key is found, splayed and its data returned | not executed | Splay.SearchAsWritten | Splay.Search |
| rb.py:114-121 | the new-key path of `insert` ends without `return` and gives `None` | a tree with root key 1, then `insert(2)` | `return True`, as the docstring at rb.py:87-89 says | not executed | RedBlack.Insert | RedBlack.InsertReturningTrue |
| bstvis/tree/tango_strict.py:696 | `if root_key and p.parent.key == root_key` treats a root key of 0 as absent | a subtree root key 0 while the parent of `p` holds key 0 | `if root_key is not None and ...`, as the test at line 692 has it | not executed | Tango.TangoTree.AuxSplitAsWritten | Tango.TangoTree.AuxSplit |
