# Left-leaning red-black symbol table

This project models `bst_red_black<Key, Value>` (`bst_redblack.h`). It is an ordered
symbol table stored as a left-leaning red-black binary search tree. Every node carries
a key, a value, a colour and the size of its subtree. The model states and proves what
the table promises:

- keys are in symmetric order;
- the three colour invariants hold: no red right link, no two red links in a row, and
  the same number of black links on every path;
- each node's count equals one plus the counts of its children;
- `put` and the deletions have set semantics;
- `rank`, `select`, `floor2`, `ceiling`, `keys` and `size(low, high)` answer as an
  ordered table should;
- `rank` and `select` are inverse to each other.

Keys are mathematical integers compared with `<`. The C++ `less`, `compare` and
`compareTo` are assumed to be that order. The default-constructed key `Key()` is
`NullKey`, which is 0.

Layout, one module per file:

- `common.dfy` (`Common`): `Option`, `Result` and `Outcome`, plus the three error
  kinds the C++ code throws for. `InvalidArgument` is `std::invalid_argument`.
  `EmptyTable` and `NotFound` are the two `std::logic_error` cases. The model also
  uses them where the C++ code dereferences a null link: `EmptyTable` for
  `delete_min()` and `delete_max()` on an empty table, and `NotFound` for `get` of
  an absent key.
- `trees.dfy` (`Trees`): the node datatype and its views. `Keys` is the key set,
  `Contents` the key-to-value map and `InOrder` the symmetric-order walk. The module
  also holds the invariants `Ordered`, `SizeConsistent`, `RedBlack` and `IsLLRB`, and
  `min`/`max` as `MinNode`/`MaxNode`.
- `repair.dfy` (`Repair`): the rotations, `flipColors`, `moveRedLeft`, `moveRedRight`
  and `balance`.
- `insert.dfy` (`Insert`): `put`.
- `delete.dfy` (`Delete`): `delete_min`, `delete_max` and `delete_key`, each as the
  recursive descent plus the public wrapper.
- `queries.dfy` (`Queries`): `get`, `contains`, `floor2`, `ceiling`, `rank`,
  `select`, `height`, `keys` and `size(low, high)`.
- `traversal.dfy` (`Traversal`): the queue-driven `level_order` and the
  `is_rank_consistent` self-check, both as methods with loops.
- `table.dfy` (`Table`): class `RedBlackBST`, which holds `root` like the C++ object.
  Its methods check arguments, return the error cases as values, and replace `root`
  for the mutations.
- `findings.dfy` (`Findings`): the source as written, wherever it departs from the
  algorithm, next to a concrete input that shows the departure.

Each C++ mutation rewrites node fields and returns the node its caller re-links
(`x->left = put(x->left, ...)`). The model writes these as functions that return the
new subtree root, and the class assigns the result to `root`.

Several defects in the file would stop it from compiling, or would crash it. The
model uses the evident intent in each case:

- `moveRedLeft` calls an undefined `flip_colors` (`bst_redblack.h:209`). It is read
  as `flipColors`.
- `moveRedRight` has no `return` (219-226). It is read as returning `h`.
- `delete_max` says `x.right` (133), and `delete_key` says `p->right_` and
  `root.color` (145, 149, 164). These are read as the member accesses meant.
- `get` tests `x->key == Key()` where `x == nullptr` is meant (63), so an absent
  key dereferences a null link. The model reads the line as the null-link test and
  returns `None` at an empty link. The class `Get` reports that as `NotFound`.
- The public `delete_min()` and `delete_max()` have no emptiness test. On an empty
  table they dereference a null root (`h->left` at 110, `isRed(x->left)` at 124). The
  class reports `EmptyTable` instead.
- `contains` compares a value with `nullptr` (72). It is modelled as "`get` finds
  the key".
- `ceiling` tests `x == Key()` where `x == nullptr` is meant: on the link at 312,
  and in the public wrapper at 307 on the `node x` of 306, where a null result is
  meant. The model reads both as the null test.
- `floor2`'s `best` starts as `nullptr`, i.e. "no candidate" (288). It is modelled as
  `None`.

The model also departs from the source in five places where the code is wrong. They
are listed under Findings.

## Model

| member | source | states |
|---|---|---|
| Trees.Blacken | bst_redblack.h:83 | Colouring the root black keeps keys, map, order and counts, keeps a red-black tree red-black, and leaves the root not red |
| Trees.IsRed | bst_redblack.h:43-45 | A null link is never red |
| Trees.Size | bst_redblack.h:47-51 | A null link has count 0; otherwise the node's stored count |
| Trees.SizeConsistent | bst_redblack.h:433-437 | `is_size_consistent`: every node's count is one more than its children's; a consistent non-empty tree has a count of at least 1 |
| Trees.SizeIsCount | bst_redblack.h:432-437 | In a size-consistent tree (`is_size_consistent`) the root's count is the number of nodes |
| Trees.SizeIsKeyCount | bst_redblack.h:47-54 | In an ordered, size-consistent tree `size()` is the number of distinct stored keys |
| Trees.InOrderDetermined | bst_redblack.h:369-373 | Two ordered trees with the same keys have the same in-order walk, so `keys()` depends only on the stored keys and not on the tree's shape |
| Trees.OrderedIncreasing | bst_redblack.h:358-367 | Symmetric order means the in-order walk is strictly increasing |
| Trees.MinNode | bst_redblack.h:254 | `min(node*)` reaches a node of the subtree holding the first key of the in-order walk |
| Trees.MaxNode | bst_redblack.h:262 | `max(node*)` reaches a node holding the last key of the in-order walk |
| Trees.MinNodeLeast | bst_redblack.h:249-254 | In an ordered subtree the leftmost key is below or equal to every key, and maps to that node's value |
| Trees.MaxNodeGreatest | bst_redblack.h:257-262 | In an ordered subtree the rightmost key is above or equal to every key, and maps to that node's value |
| Repair.RotateLeft | bst_redblack.h:188-197 | Needs a red right child. The in-order walk is unchanged; the promoted node takes the old colour, the demoted node turns red, the three subtrees are re-linked in order, and counts stay consistent |
| Repair.RotateRight | bst_redblack.h:177-186 | The mirror image of `rotateLeft`: needs a red left child, keeps the in-order walk, and passes the colour to the promoted node |
| Repair.RotateLeftContents | bst_redblack.h:188-197 | `rotateLeft` keeps symmetric order and the key-to-value map |
| Repair.RotateRightContents | bst_redblack.h:177-186 | `rotateRight` keeps symmetric order and the key-to-value map |
| Repair.FlipColors | bst_redblack.h:199-206 | The flip toggles the colours of the node and its two children and changes nothing else |
| Repair.FlipColorsContents | bst_redblack.h:199-206 | The flip keeps order and the map |
| Repair.MoveRedLeft | bst_redblack.h:208-217 | Keeps the in-order walk and consistent counts |
| Repair.MoveRedLeftContents | bst_redblack.h:208-217 | Keeps symmetric order and the map |
| Repair.MoveRedRight | bst_redblack.h:219-226 | Keeps the in-order walk and consistent counts |
| Repair.MoveRedRightContents | bst_redblack.h:219-226 | Keeps symmetric order and the map |
| Repair.Balance | bst_redblack.h:228-238 | Keeps the in-order walk and recomputes the node's count, whose children are consistent |
| Repair.BalanceContents | bst_redblack.h:228-238 | Keeps symmetric order and the map |
| Insert.Put | bst_redblack.h:88-104 | The key set afterwards is the old one plus `key`, and counts stay consistent |
| Insert.FixUp | bst_redblack.h:95-102 | The three repairs after the recursive insert keep the in-order walk and make the count consistent |
| Insert.PutContents | bst_redblack.h:88-104 | On an ordered tree `put` keeps order, and the new map is the old one with `key` mapped to `val` |
| Insert.FixUpRedBlack | bst_redblack.h:95-102 | On a node that is already red-black the repairs change only its count |
| Insert.PutRedBlack | bst_redblack.h:88-104 | `put` keeps the black height. Below a black node the result is red-black; below a red node at most the root has a red left child |
| Insert.FixLeft | bst_redblack.h:95-102 | After an insertion into the left subtree the repairs keep the black height, give a red-black node below a black parent, and leave at most a red root over a red left child below a red one |
| Insert.FixRight | bst_redblack.h:95-102 | The same after an insertion into the right subtree, where a red link coming up is rotated left or split by the flip |
| Insert.PutKeepsLLRB | bst_redblack.h:76-86 | The public `put` keeps every LLRB invariant, with a black root, and maps `key` to `val` |
| Delete.PrepareLeft | bst_redblack.h:113-114 | Moving a red link to the left when the left child and its left child are black keeps the walk, counts, and a left child |
| Delete.DeleteMin | bst_redblack.h:109-118 | Recursive `delete_min` drops exactly the first key of the in-order walk and keeps counts consistent |
| Delete.LeftFinish | bst_redblack.h:113-117 | After a left descent, whatever red-black subtree of the right black height comes back, `balance` yields a red-black node of the original black height, not red if the original was not |
| Delete.DeleteMinContents | bst_redblack.h:109-118 | `delete_min` keeps order and removes exactly the least key from the map |
| Delete.DeleteMinRedBlack | bst_redblack.h:109-118 | Started where the node or its left child is red, `delete_min` returns a red-black tree of the same black height, not red if the input was not |
| Delete.LeanRight | bst_redblack.h:124-125 | Rotating a red left link to the right keeps the walk and gives the node a black left child |
| Delete.PrepareRight | bst_redblack.h:130-131 | Moving a red link to the right when the right child and its left child are black keeps the walk |
| Delete.DeleteMax | bst_redblack.h:123-135 | Recursive `delete_max` drops exactly the last key of the in-order walk and keeps counts consistent |
| Delete.DescendMax | bst_redblack.h:124-133 | Unless the node is the last, the right subtree after leaning right and borrowing is again a node `delete_max` can enter, and the walk, map and greatest key are unchanged |
| Delete.RightFinish | bst_redblack.h:130-134 | After a right descent, whatever repaired subtree comes back and whichever entry the node ends up holding, `balance` yields a red-black node of the original black height |
| Delete.BalanceLeftBlack | bst_redblack.h:228-238 | At a node with a black left link over red-black children of equal black height, `balance` yields a red-black node of the same colour and black height |
| Delete.BalanceLeftRed | bst_redblack.h:228-238 | At a black node with a red left link over red-black children of equal black height, `balance` yields a red-black node of the same black height |
| Delete.DeleteMaxContents | bst_redblack.h:123-135 | `delete_max` keeps order and removes exactly the greatest key from the map |
| Delete.DeleteMaxRedBlack | bst_redblack.h:123-135 | With a red link at hand, `delete_max` returns a red-black tree of the same black height |
| Delete.Delete | bst_redblack.h:153-174 | Corrected recursive `delete_key`: keeps counts consistent |
| Delete.DescendLeft | bst_redblack.h:158-159 | A key below the node's lies in the left subtree, which after the borrowing step is again a node the deletion can enter; the map and the order are unchanged |
| Delete.DescendRight | bst_redblack.h:160-169 | A key not below the node's lies, after leaning right and borrowing, either at the node (whose right subtree is then red-black) or in the right subtree, which the deletion can enter again |
| Delete.DeleteLeaf | bst_redblack.h:164-165 | A node at the bottom holding the key is the subtree's only entry, so removing it leaves the empty map; with a red link at hand the empty tree is a valid repair of its black height |
| Delete.SuccessorContents | bst_redblack.h:162-169 | Replacing a node by the least node of its right subtree, which `delete_min` unlinks, keeps order and removes exactly the node's key |
| Delete.DeleteContents | bst_redblack.h:153-174 | `delete_key` keeps order and removes exactly `key` from the map and the key set |
| Delete.DeleteRedBlack | bst_redblack.h:153-174 | With a red link at hand, `delete_key` returns a red-black tree of the same black height |
| Delete.RedRoot | bst_redblack.h:144-145 | The root is reddened when both children are black; afterwards a red link is at hand on either side, and the views are unchanged |
| Delete.RemoveMin | bst_redblack.h:107 | The public `delete_min` on a non-empty table keeps every invariant and removes exactly the least key |
| Delete.RemoveMax | bst_redblack.h:121 | The public `delete_max` keeps every invariant and removes exactly the greatest key |
| Delete.Remove | bst_redblack.h:138-150 | The public `delete_key` for a stored key keeps every invariant and removes exactly that key |
| Queries.Get | bst_redblack.h:61-67 | `get` finds a value only for a stored key |
| Queries.GetContents | bst_redblack.h:61-67 | On an ordered tree `get` answers exactly the map lookup, both when found and when not |
| Queries.Contains | bst_redblack.h:70-73 | `contains` answers true only for stored keys |
| Queries.ContainsKeys | bst_redblack.h:70-73 | On an ordered tree `contains(key)` holds if and only if `key` is stored |
| Queries.Floor2 | bst_redblack.h:293-300 | The accumulator descent returns either its candidate or a stored key |
| Queries.Floor2IsFloor | bst_redblack.h:293-300 | Given a candidate below every key of the subtree, `floor2` returns the greatest key not above `key` among the subtree and the candidate |
| Queries.FloorOfTable | bst_redblack.h:287-300 | `floor2(key)` returns the greatest stored key not above `key`, `key` itself when stored, and none when every key lies above it |
| Queries.Ceiling | bst_redblack.h:314-323 | Corrected `ceiling(node*, key)` returns only stored keys |
| Queries.CeilingIsCeiling | bst_redblack.h:303-323 | `ceiling(key)` returns the least stored key not below `key`, `key` itself when stored, and none when every key lies below it |
| Queries.CountLessAtIndex | bst_redblack.h:344-355 | In an increasing sequence the element at index `i` has exactly `i` elements below it |
| Queries.Rank | bst_redblack.h:349-355 | The recursive `rank` by left-subtree counts; in a size-consistent tree it lies between 0 and the tree's count |
| Queries.RankCountsLess | bst_redblack.h:344-355 | `rank(key)` is the number of stored keys strictly below `key` |
| Queries.Select | bst_redblack.h:333-341 | `select` returns only stored keys |
| Queries.SelectInOrder | bst_redblack.h:326-341 | In a size-consistent tree `select(i)` is the `i`-th key of the walk for `0 <= i < size()`, and nothing otherwise |
| Queries.RankOfSelect | bst_redblack.h:439-443 | `rank(select(i)) == i` for every rank in range |
| Queries.SelectOfRank | bst_redblack.h:444-449 | `select(rank(k)) == k` for every stored key |
| Queries.Height | bst_redblack.h:241-246 | The height is -1 exactly for the empty tree, and below the count in a consistent tree |
| Queries.KeysRange | bst_redblack.h:358-367 | The pruned walk yields only stored keys within `[low, high]` |
| Queries.KeysRangeWithin | bst_redblack.h:358-367 | On an ordered tree the pruning loses nothing: the walk is the in-order walk filtered to the range |
| Queries.KeysRangeSpec | bst_redblack.h:375-382 | `keys(low, high)` is strictly increasing and holds a key if and only if it is stored and within the range |
| Queries.AllKeys | bst_redblack.h:369-373 | `keys()` of the empty table is empty |
| Queries.AllKeysInOrder | bst_redblack.h:369-373 | `keys()` is the whole in-order walk |
| Queries.SizeRange | bst_redblack.h:384-391 | `size(low, high)` from two ranks: 0 when `high < low`, and at most the tree's count when `high` is not stored |
| Queries.SizeRangeCount | bst_redblack.h:384-391 | `size(low, high)` is the length of `keys(low, high)`, including 0 when `low > high` |
| Traversal.LevelSplit | bst_redblack.h:459-466 | Going one level down sends every key either to the level's own keys or into the subtrees queued for the next level |
| Traversal.LevelOrderPermutation | bst_redblack.h:454-468 | The level order is a permutation of the in-order walk and starts with the root's key |
| Traversal.BreadthFirst | bst_redblack.h:454-468 | The queue loop yields the keys depth by depth, each depth from left to right |
| Traversal.CheckRanks | bst_redblack.h:439-451 | The two loops return true if and only if every rank in range selects a key of that rank and every key of `keys()` is selected at its rank |
| Traversal.CheckSelects | bst_redblack.h:440-443 | The first loop returns true if and only if every rank in `[0, size())` selects a key whose rank is that rank |
| Traversal.CheckKeys | bst_redblack.h:444-449 | The second loop returns true if and only if every key of the sequence it walks is selected at its rank |
| Traversal.ValidIsRankConsistent | bst_redblack.h:439-451 | Every ordered table with consistent counts passes the rank check |
| Table.PutThenRemove | bst_redblack.h:138-150 | `delete_key` undoes `put` of an absent key: the map, the `keys()` sequence and `size()` are as before |
| Table.PutThenGet | bst_redblack.h:76-104 | After `put(key, val)`, `get(key)` finds `val`; the count grows by one for a new key and stays for a stored one |
| Table.RedBlackBST.constructor | bst_redblack.h:40 | A new table is valid and empty |
| Table.RedBlackBST.Count | bst_redblack.h:54 | `size()` is the number of stored keys |
| Table.RedBlackBST.IsEmpty | bst_redblack.h:56 | `empty()` holds exactly for the empty map |
| Table.RedBlackBST.Get | bst_redblack.h:58-67 | A null key is rejected; otherwise the stored value, or not found |
| Table.RedBlackBST.Contains | bst_redblack.h:69-73 | A null key is rejected; otherwise membership in the map |
| Table.RedBlackBST.Put | bst_redblack.h:76-86 | A null key leaves the table as it is; otherwise `key` maps to `val`, and the table stays valid |
| Table.RedBlackBST.DeleteMin | bst_redblack.h:107-117 | `delete_min()`: the least key is removed and the table stays valid; on an empty table, where the source dereferences a null root at 110, it reports `EmptyTable` |
| Table.RedBlackBST.DeleteMax | bst_redblack.h:121-135 | `delete_max()`: the greatest key is removed and the table stays valid; on an empty table, where the source dereferences a null root at 124, it reports `EmptyTable` |
| Table.RedBlackBST.DeleteKey | bst_redblack.h:138-150 | A null key is rejected; an absent key leaves the table as it is; otherwise exactly that key is removed |
| Table.RedBlackBST.Min | bst_redblack.h:249-252 | An empty table reports itself as empty; otherwise the least stored key |
| Table.RedBlackBST.Max | bst_redblack.h:257-260 | An empty table reports itself as empty; otherwise the greatest stored key |
| Table.RedBlackBST.Floor2 | bst_redblack.h:287-291 | The greatest stored key not above `key`, or not found |
| Table.RedBlackBST.Ceiling | bst_redblack.h:303-311 | A null key and an empty table are rejected; otherwise the least stored key not below `key`, or not found |
| Table.RedBlackBST.Select | bst_redblack.h:326-331 | A rank outside `[0, size())` is rejected; otherwise the key at that position of the increasing key sequence |
| Table.RedBlackBST.Rank | bst_redblack.h:344-347 | A null key is rejected; otherwise the number of stored keys below it |
| Table.RedBlackBST.Height | bst_redblack.h:241-246 | `height()` is the height of the tree, 1 plus the larger child height and -1 for a null link; it is -1 exactly for the empty table and below the number of keys |
| Table.RedBlackBST.KeysBetween | bst_redblack.h:375-382 | Null bounds are rejected; otherwise the stored keys within the range, increasing |
| Table.RedBlackBST.AllKeys | bst_redblack.h:369-373 | Every stored key, increasing |
| Table.RedBlackBST.SizeBetween | bst_redblack.h:384-391 | Null bounds are rejected; otherwise the number of stored keys within the range |
| Table.RedBlackBST.LevelOrder | bst_redblack.h:454-468 | Every stored key once, the root's first, depth by depth |
| Table.RedBlackBST.IsRankConsistent | bst_redblack.h:439-451 | A valid table always passes the rank check |
| Findings.RotateLeftAsWritten | bst_redblack.h:188-197 | `rotateLeft` as written keeps the walk, but the counts stay where they were: the promoted node keeps its old count |
| Findings.RotateRightAsWritten | bst_redblack.h:177-186 | `rotateRight` as written, likewise |
| Findings.FixUpAsWritten | bst_redblack.h:95-102 | The repairs of `put` with the rotations as written keep the walk |
| Findings.PutAsWritten | bst_redblack.h:88-104 | `put` with the rotations as written adds `key` to the key set |
| Findings.StaleSizeAfterPuts | bst_redblack.h:76-104 | `put(1)`, `put(3)`, `put(2)` as written leave a root count of 4 for three keys |
| Findings.CountAfterPuts | bst_redblack.h:76-104 | The same calls with the corrected rotations build the three-key tree, whose count is 3 |
| Findings.ThreeFromPuts | bst_redblack.h:76-104 | `put(1)`, `put(2)`, `put(3)` build the balanced three-key tree |
| Findings.FlipColorsAsWritten | bst_redblack.h:199-206 | `flipColors` as written assigns red to the node and black to both children |
| Findings.FixUpAssignedFlip | bst_redblack.h:95-103 | The repairs of `put` with the flip as written keep the walk and the key set |
| Findings.PutAssignedFlip | bst_redblack.h:88-104 | `put` with the flip as written, and the corrected rotations, adds `key` to the key set |
| Findings.FlipAssignedInPutContext | bst_redblack.h:95-102 | Where `put` repairs a node, assigning the colours builds the same tree as toggling them |
| Findings.PutAssignedFlipAgrees | bst_redblack.h:88-104 | On a red-black tree `put` with the flip as written equals `put` with the toggle |
| Findings.FlipAssignedCannotBorrow | bst_redblack.h:208-226 | At a red node over two black children, which is where the move-red helpers flip, the assignment is a no-op while the toggle reddens both children |
| Findings.DeleteMinRootAsWritten | bst_redblack.h:107 | The public `delete_min` as written drops the least key |
| Findings.DeleteMaxRootAsWritten | bst_redblack.h:121 | The public `delete_max` as written drops the greatest key |
| Findings.RootDeletionsAsWrittenBreakColours | bst_redblack.h:107-135 | On the three-key tree both wrappers as written break the invariants, which the corrected wrappers keep |
| Findings.HibbardDelete | bst_redblack.h:153-174 | The recursive `delete_key` as written, with the corrected `delete_min` in its successor step, keeps counts consistent |
| Findings.HibbardDeleteContents | bst_redblack.h:153-174 | Plain Hibbard deletion keeps order and removes exactly `key` |
| Findings.DeleteKeyAsWritten | bst_redblack.h:138-174 | The public `delete_key` as written keeps order and counts and removes exactly the key |
| Findings.HibbardBreaksBlackBalance | bst_redblack.h:153-174 | Deleting 1 from the three-key tree as written leaves unequal black heights; the corrected deletion keeps every invariant |
| Findings.CeilingAsWritten | bst_redblack.h:314-323 | `ceiling(node*, key)` as written returns only stored keys |
| Findings.CeilingAsWrittenIsStrict | bst_redblack.h:314-323 | As written, `ceiling` returns the least stored key strictly above `key` |
| Findings.CeilingAsWrittenMissesStoredKey | bst_redblack.h:303-323 | On the one-key table holding 5, `ceiling(5)` as written finds nothing |

## Left out

- Console output is not modelled: `print_inorder`, `operator<<`, the `std::cerr` warnings and the `test_bstredblack` driver. The driver reads a file and prints tables.
- `queue.h` is not part of this model. `array_queue` and `queue_` are modelled as Dafny sequences used first in, first out.
- Memory management is not modelled: `new`, nodes that are dropped without `delete`, and the heap-allocated exception objects. A thrown exception is an `Err` or `Fail` value.
- The recursive `floor` at lines 273-284 is not modelled. Its equality test is never true, and it falls off its end without a return. `floor2` is the floor the model provides.
- `is_bst` (421-430) and `check()` are not modelled as written. `is_bst` recurses into the left child twice. `Trees.Ordered` is the correct ordered-tree predicate in its place.
- Logarithmic height bounds are not stated. The code neither states nor checks them.
- Table.RedBlackBST.Get: the source's `get` of an absent key dereferences a null link, because line 63 tests the node's key where the null-link test is meant. The model reads line 63 as that test and reports `NotFound`, not the default `Value()` that the line returns.
- Table.RedBlackBST.DeleteMin, Table.RedBlackBST.DeleteMax: on an empty table the source dereferences a null root (lines 110 and 124). The model reports `EmptyTable` and leaves the table unchanged.
- Table.RedBlackBST.Floor2: like the source, it does not reject the null key. On an empty table it reports not found, as the source's null result does.
- Traversal.CheckRanks: where the source's public `select` would throw on a rank out of range, the model treats that as an inconsistency and returns false. The throw of the public `rank` on a null key is not modelled: `Rank` is computed as usual, which cannot matter in a valid table because the null key is never stored.
- Findings.HibbardDelete: its successor step calls the corrected `Delete.DeleteMin`, whose flip toggles colours and whose rotations recompute counts, not `delete_min` as written. The source moves the successor node itself into place, after `delete_min` may have recoloured that same node through `moveRedLeft`. The model builds a fresh node with the successor's colour from before `delete_min` ran. So HibbardDelete does not model the successor's final colour, and its count claim holds only with `delete_min` corrected.
- Findings.RootDeletionsAsWrittenBreakColours, Findings.DeleteMinRootAsWritten, Findings.DeleteMaxRootAsWritten, Findings.DeleteKeyAsWritten: these reuse the corrected `delete_min`, `delete_max`, rotations and `flipColors`. Only the wrapper, or the recursive `delete_key`, is as written. With the assigning `flipColors` of lines 199-206, `delete_min()` on the three-key tree leaves a red 2 with a null left link over a black 3. That tree breaks the invariant too, but it is not the tree the lemma exhibits.
- Findings.DeleteKeyAsWritten: only order, key set and counts are claimed for it, because plain Hibbard deletion does not keep the colour invariants.

## Findings

| source | as written | input that shows it | evidently intended | confidence | as-written member | corrected member |
|---|---|---|---|---|---|---|
| bst_redblack.h:177-197 | The rotations re-link nodes but never update `size`; the promoted node keeps its old count | `put(1)`, `put(3)`, `put(2)` gives `size() == 4` with three keys | The promoted node takes the old root's count, and the demoted node's count is recomputed | high (not executed) | Findings.StaleSizeAfterPuts | Findings.CountAfterPuts |
| bst_redblack.h:199-206 | `flipColors` assigns red to the node and black to its children | A red node over two black children, as in `moveRedLeft`, is left unchanged, so no red link moves down | Toggle all three colours | high (not executed) | Findings.FlipAssignedCannotBorrow | Delete.DeleteMinRedBlack |
| bst_redblack.h:107, 121 | The public `delete_min` and `delete_max` neither redden the root first nor blacken it afterwards | `delete_min()` on the three-key tree built by `put(1)`, `put(2)`, `put(3)` leaves a red root over a red left child, with `flipColors` corrected | Redden a root with two black children, delete, then blacken the root, as `delete_key` does at 144-149 | high (not executed) | Findings.RootDeletionsAsWrittenBreakColours | Delete.RemoveMin |
| bst_redblack.h:153-174 | The recursive `delete_key` is plain Hibbard deletion, with no move-red steps and no `balance` | `delete_key(1)` on the three-key tree leaves node 2 with a null left link and a black right child | LLRB deletion: move red links down with `moveRedLeft`/`moveRedRight` and repair with `balance` | high (not executed) | Findings.HibbardBreaksBlackBalance | Delete.Remove |
| bst_redblack.h:314-317 | `ceiling` decides "equal" by `less(key, x->key) && less(x->key, key)`, which is never true | On the table holding only 5, `ceiling(5)` finds nothing | Equal means neither is less than the other | high (not executed) | Findings.CeilingAsWrittenMissesStoredKey | Queries.CeilingIsCeiling |
