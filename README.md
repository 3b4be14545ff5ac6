# A verified model of the btree engine (src/btree.c)

The C library keeps an in-memory ordered map from integer keys to integer
values in a B-tree. Each node occupies one block of a caller-chosen size. A
block is a node header followed by M + 1 entry slots, so the order
M = (block_size − header) / entry − 1 follows from the block size. These are
the operations:

- `btree_create` validates the block size.
- `btree_insert` descends from the root and splits every full node on the way
  down. A full root makes the tree grow one level.
- `btree_delete` descends the same way and tops up every node before entering
  it. It does this by borrowing through the parent from a rich sibling, or by
  merging with a poor one. An internal key is pushed down until it reaches a
  leaf. A root that loses its last key is replaced by its merged child.
- `btree_search` is a lookup, and `btree_count` returns the number of keys.

The model, module by module:

- `Entries`: entries, sorted entry sequences, and the map a sequence stands
  for.
- `Nodes`: a node is a value. It has a leaf flag, its entries, and its
  children. The module defines the in-order sequence of a subtree. It also
  defines the bound predicate `Good`: the shape, at most M entries, the
  minimum occupancy, and all leaves at one depth.
- `Create`: the block-size checks, with the C bit trick `b & (b − 1)`
  written out bit by bit.
- `KeySearch`: `key_binary_search` as a loop.
- `Restructure` and `Occupancy`: the one-level rearrangements. These are
  `btree_split_child`, the two rotations through a separator, and
  `btree_merge`. The module proves that each keeps the in-order sequence and
  keeps the bounds.
- `Zipper`: the downward path of a descent as frames, and how the changed
  node at the bottom is put back into its ancestors.
- `InsertSteps` and `DeleteSteps`: one lemma per step of the two descents,
  each stated on a descent state. The state says three things:
  - the path and the current node are within bounds;
  - the whole tree lists the original entries around the current node;
  - the key can only be inside the current node.
- `BTrees`: the class `BTree` with fields `M`, `root` and `count`, and the
  methods `New`, `Count`, `Search`, `Insert` and `Delete`. `Insert` and
  `Delete` are `while` loops that descend one node per iteration, just as the
  C loops do. Each is proved against the abstract map `Contents()` together
  with the tree invariant `Valid()`.
- `Findings`: two concrete trees on which `btree_delete`, as written, leaves
  the invariant.

### Where the code and the textbook B-tree differ

The model follows the code in each of these cases:

- **Minimum occupancy.** The textbook B-tree bounds non-root nodes by
  `ceil(M) ≤ num ≤ M − 1`, written with the source's `ceil` macro
  (src/btree.c:28). The code keeps a weaker bound,
  `(M − 2) / 2 ≤ num ≤ M`, and `Nodes.Good` states that bound.
  - With odd M, a split of a node with M − 1 entries leaves the new right
    sibling only `ceil(M) − 1` entries (src/btree.c:97-101).
  - A merge can fill a node up to M entries, which is room the block reserves
    (src/btree.c:26, 179).
- **The node entered during a deletion.** It has more than `(M − 2) / 2`
  entries, not more than `ceil(M)`. The rotation of a found key into a
  sibling (src/btree.c:201-232) may leave that sibling at `ceil(M)`.
- **Borrowing ties.** When both siblings are equally rich, the borrow takes
  from the left one (src/btree.c:256-263).
- **Insert with `overwrite == 0` on a present key.** The code may still split
  full nodes on the way down. Only the stored map and the count are unchanged.

## Model

| member | source | states |
|---|---|---|
| Create.CheckBlockSize | src/btree.c:43-58 | An accepted block size yields an order 2 < M < 2^31 whose M + 1 entry slots and header fit in the block, while one more slot would not. |
| Create.PowerOfTwoTestMeans | src/btree.c:44-47 | `b & (b − 1) == 0` in size_t arithmetic holds exactly for 0 and the powers of two. |
| Create.CheckBlockSizeMeans | src/btree.c:43-58 | A block size is accepted if and only if it is a power of two, holds the header and one entry, and gives 2 < M < 2^31, where M is the macro `M(block_size)`. |
| BTrees.BTree.New | src/btree.c:43-67 | The status is 0 exactly when the size is accepted, and −1 otherwise. On 0, the result is a fresh, valid, empty tree of order M. |
| BTrees.BTree.constructor | src/btree.c:60-66 | The created tree is valid, its root is an empty leaf, its count is 0, and its map is empty. |
| KeySearch.KeyBinarySearch | src/btree.c:69-84 | The result is a slot where the keys change from below the target to at or above it (num when there is none). In a sorted node, it is the first slot whose key is not below the target: everything before it is below, and everything from it on is at or above. |
| KeySearch.LowerBoundFinds | src/btree.c:128 | In a sorted node, the slot the search returns holds the target exactly when the target is a key of the node. |
| Restructure.SplitChild | src/btree.c:92-108 | x keeps Ceil(M) entries and y gets `x.num − Ceil(M) − 1`. The median enters the parent at idx, with x to its left and y to its right, and the parent gains one entry. |
| Restructure.SplitChildInorder | src/btree.c:92-108 | A split leaves the node's in-order entries unchanged, and x's entries are exactly the left half, the median, and the right half. |
| Restructure.SplitChildSeparates | src/btree.c:98-104 | After a split, every key left in x is below the median and every key moved to y is above it. |
| Occupancy.SplitChildGood | src/btree.c:136-138 | Splitting a child with at least M − 1 entries, below a node with room, keeps every bound, and leaves both halves with fewer than M − 1 entries. |
| InsertSteps.GrowRoot | src/btree.c:115-122 | A root with at least M − 1 entries, moved under a new root and split there, gives a tree one level higher. The new root has one entry and two children, and the tree lists the same entries. |
| BTrees.BTree.Grow | src/btree.c:115-122 | Root growth keeps the tree valid with the same entries and count, and raises the height by one. The root then has one key and two children. |
| InsertSteps.SplitStep | src/btree.c:136-148 | Splitting the full child on the descent keeps the descent state. Both halves have fewer than M − 1 entries, and the median sits between its old neighbours. |
| BTrees.SplitDown | src/btree.c:136-148 | After the split, either the key equals the median at slot i, or i or i + 1 is a child with room whose separators enclose the key. |
| BTrees.InsertStep | src/btree.c:126-150 | One pass through an internal node either finds the key at slot i or yields a child with fewer than M − 1 entries that encloses the key. No full child is entered. |
| InsertSteps.Overwrite | src/btree.c:128-131 | Overwriting the found entry gives a sorted, valid tree whose map is the old map with the key set to the new value, and whose size is unchanged. |
| InsertSteps.Keep | src/btree.c:132-134 | Without overwrite, the tree after the splits on the way lists exactly the original entries. |
| InsertSteps.LeafInsert | src/btree.c:153-168 | An absent key placed at the search slot of the leaf gives a sorted, valid tree one entry larger, whose map is the old map plus key→value. |
| BTrees.BTree.Found | src/btree.c:128-134 | A key found on the way returns 1 and the map updated with the new value when overwrite is set. Otherwise it returns 0 and the same map. The count does not change. |
| BTrees.BTree.InsertLeaf | src/btree.c:153-168 | At the leaf, a present key behaves as in Found. An absent key returns 1, adds one to the count, and maps the key to the value. |
| BTrees.BTree.Insert | src/btree.c:110-169 | For a present key, the result is 1 with the value replaced if overwrite is set, or 0 with the map unchanged otherwise, and the count is unchanged. For an absent key, the result is 1, the count grows by one, and the map gains exactly key→value. The tree stays valid. |
| Restructure.Merge | src/btree.c:171-185 | The left node becomes x's entries, then the separator, then y's entries, carrying both sets of children. The parent loses the separator and y's slot. |
| Restructure.MergeInorder | src/btree.c:171-185 | A merge leaves the node's in-order entries unchanged, and the merged child lists x, then the separator, then y. |
| Occupancy.MergeGood | src/btree.c:171-185 | When the two children and the separator fit in M entries and the parent can spare an entry, the merge keeps every bound. |
| DeleteSteps.StepCollapse | src/btree.c:186-189 | Corrected step, see Findings src/btree.c:234: the source collapses whenever the node's `num` is 1 before the merge (0 after it), at any node; the model only at the root. When the root has one entry and its two poor children merge, the merged child becomes the root. The deletion state holds there, one level lower. |
| Restructure.RotateRight | src/btree.c:201-216 | The last entry of the left child moves up into the separator slot. The old separator moves to the front of the right child, together with the left child's last link. Sizes change by −1 and +1. |
| Restructure.RotateRightInorder | src/btree.c:201-216 | The right rotation leaves the node's in-order entries unchanged. |
| Occupancy.RotateRightGood | src/btree.c:274-282 | A right rotation from a child that can spare an entry into one with room keeps every bound. |
| Restructure.RotateLeft | src/btree.c:217-232 | The first entry of the right child moves up into the separator slot. The old separator moves to the end of the left child, together with the right child's first link. |
| Restructure.RotateLeftInorder | src/btree.c:217-232 | The left rotation leaves the node's in-order entries unchanged. |
| Occupancy.RotateLeftGood | src/btree.c:263-272 | A left rotation from a child that can spare an entry into one with room keeps every bound. |
| DeleteSteps.StepRotateRight | src/btree.c:201-216 | Corrected step on the found-key path, see Findings src/btree.c:201: it requires the receiving child to have room. On the borrowing path this holds because the receiver has at most ceil(M) entries. On the found-key path the source does not check it. A right rotation, then entering the child that received the separator, keeps the deletion state. The key still lies inside the entered child, and the rest of the tree is unchanged. |
| DeleteSteps.StepRotateLeft | src/btree.c:217-232 | Corrected step on the found-key path, see Findings src/btree.c:201: it requires the receiving child to have room. On the borrowing path this holds because the receiver has at most ceil(M) entries. On the found-key path the source does not check it. A left rotation, then entering the child that received the separator, keeps the deletion state. |
| DeleteSteps.StepMerge | src/btree.c:233-241 | Merging two poor children around the key's range, then entering the merged child, keeps the deletion state. |
| DeleteSteps.StepPredecessor | src/btree.c:200-243 | Corrected step, see Findings src/btree.c:201: the source has no such step and rotates into a full child instead. When both children around a found key are full, the key's slot takes its predecessor, and the deletion goes on for the predecessor in the left child. This keeps the deletion state and remembers the key's value. |
| DeleteSteps.StepDown | src/btree.c:246-248 | A rich child is entered as it is, keeping the deletion state. |
| BTrees.DeleteFoundStep | src/btree.c:200-243 | Corrected step, see Findings src/btree.c:201: it rotates right only into a child with fewer than M entries, otherwise left, and takes the predecessor when both children are full; the source checks neither child's room. One pass through a node that holds the target keeps the deletion state and descends one level. |
| BTrees.FillDown | src/btree.c:248-294 | Topping up a poor child works in the code's order: borrow from a richer right sibling, or else from a rich left sibling, or else merge, with the left sibling first. Each choice keeps the deletion state one level lower. |
| BTrees.DeleteMissStep | src/btree.c:245-295 | One pass through a node that does not hold the target keeps the deletion state and descends one level, so every child is topped up before it is entered. |
| BTrees.MergeDown | src/btree.c:233-241 | Corrected step, see Findings src/btree.c:234: the source's one-entry test fires at any node. A merge, then entering the merged child, keeps the deletion state. The tree collapses a level only when the node is the root with one entry. |
| DeleteSteps.LeafRemove | src/btree.c:298-305 | Removing the target from the leaf gives a valid tree that lists the original entries without the key. The key was in the map, and the value returned is the one it had. |
| DeleteSteps.LeafMiss | src/btree.c:298-307 | A target absent from the leaf means the key is not in the map, and the tree lists the original entries. |
| BTrees.BTree.DeleteLeaf | src/btree.c:298-307 | At the leaf, the map becomes the old map without the key. A present key returns 1 with its value and the count drops by one. An absent key returns 0 and the count is unchanged. |
| BTrees.BTree.Delete | src/btree.c:192-308 | Proved of the corrected deletion, see Findings src/btree.c:201 and src/btree.c:234. The map becomes the old map without the key. For a present key, the result is 1 with its value, and the count drops by one. For an absent key, the result is 0 and the count is unchanged. The tree stays valid. |
| BTrees.SearchHit | src/btree.c:315-318 | A key found in any node on the way down is in the map with that entry's value. |
| BTrees.SearchMiss | src/btree.c:321-324 | A key absent from the leaf that the search reaches is not in the map. |
| BTrees.BTree.Search | src/btree.c:310-325 | The result is 1 exactly when the key is in the map, and the value returned is the mapped one. |
| BTrees.BTree.Count | src/btree.c:349-351 | The count is the number of keys in the map. |
| Findings.CollapseOffRoot | src/btree.c:234 | On a valid order-3 tree, the deletion reaches a non-root node with one entry, where the source's root test fires. The leaf it would copy over the root lacks key 1, which the tree holds. |
| Findings.FoundRotationOverflows | src/btree.c:201 | On a valid order-4 tree, the source's test selects the right rotation into a child with M entries, which then has M + 1 entries and M + 2 links, and the tree is no longer within bounds. |

## Left out

- Nodes are values, not heap blocks reached through `intptr_t` links. Aliasing and the order of the individual memory writes inside one step are not modelled. Each changed node is put back into its ancestors along the descent path.
- `nodecpy` (src/btree.c:86-90) is not a separate member. Its shifts of entries and of their trailing child links are the sequence slicing and concatenation inside `SplitChild`, `RotateRight`, `RotateLeft`, `Merge`, and the leaf insert and remove.
- `sizeof(btree_node)` and `sizeof(btree_key_value)` are the parameters `nodeSize` and `entrySize` of `BTree.New`, because btree.h is not part of this model.
- `btree_size`, `btree_free` and `btree_node_free`, and the `calloc`, `malloc`, `memcpy`, `memset` and `free` calls, are left out. They only manage memory.
- BTrees.BTree.New: the caller-supplied `*T` block of `btree_create`, which is reused when it is not NULL, is not modelled. A fresh object is returned instead.
- BTrees.BTree.Search and BTrees.BTree.Delete: the `value` out-pointer may be NULL in the source. The model always returns a value, which is 0 when the key is absent.
- `btree_key_t` comes from btree.h, which is not part of this model. Keys and values are unbounded integers. Keys are only compared, so no width matters.
- `count` (a size_t) and `num` (a 31-bit field) are unbounded naturals. `num` never exceeds M < 2^31. `count` would wrap only after 2^64 insertions.
- BTrees.BTree.Valid states the occupancy bound the code keeps, `(M − 2) / 2 ≤ num ≤ M` for non-root nodes. This is weaker than `ceil(M) ≤ num ≤ M − 1`, which the code does not keep (see above).
- BTrees.BTree.Delete: the modelled deletion differs from src/btree.c:192-308 in exactly two steps, and its contract is proved of the corrected algorithm, not of `btree_delete` as written. (1) A found key rotates into a child only when that child has fewer than M entries, and is replaced by its predecessor when both children are full (src/btree.c:201-232 rotates without a room check). (2) The tree collapses a level only at the root (src/btree.c:186, 234 and 286 collapse at any node with one entry). Both are the Findings rows below.
- src/bench.c is a timing harness that uses randomness and the clock. It is not modelled.

## Findings

| source | as written | input that shows it | evidently intended | confidence | as-written member | corrected member |
|---|---|---|---|---|---|---|
| src/btree.c:234 | `flag = (node->num == 1)` (also at line 286, and `node->num == 0` at line 186) is taken to mean that the node is the root, and the merged child is copied over the root. | M = 3, which needs a power-of-two block in [header + 4·entry, header + 5·entry). None exists for 24-byte entries behind an 8-byte header (LP64), nor for 12-byte entries behind a 4-byte header, or 16-byte entries behind a 4- or 8-byte header, so on common platforms the defect is latent; 28-byte entries behind a 4-byte header with 128-byte blocks would give M = 3. For M ≥ 4 every non-root node the deletion enters has been topped up to at least two entries, so the test cannot fire off the root. The tree is root [20] over [5, 10] (leaves 1, 7, 15) and [] (leaf 25). Deleting 20 rotates 20 into the right child, which is then a one-entry non-root node between the poor leaves 15 and 25. The root is overwritten with the leaf [15, 20, 25], so keys 1, 5, 7 and 10 are lost. | Collapse only when the node is the root. | not executed | Findings.CollapseOffRoot | BTrees.MergeDown |
| src/btree.c:201 | The found key rotates right into child i + 1 whenever child i is rich, without checking that child i + 1 has room. | M = 4 (for example, 128-byte blocks of 24-byte entries behind a 4- or 8-byte header). The tree is root [50] over [20, 30] (leaves 10, 25, 35) and [60, 70, 80, 90] (five leaves). A child of M entries is what the same rotation makes from one of M − 1. Deleting 50 gives the right child 5 entries and 6 links in a block of 5 slots, so the `nodecpy` at line 205 writes past the block. | Rotate only into a child with fewer than M entries. Otherwise rotate left. When both children are full, replace the key by its predecessor and go on deleting that. | not executed | Findings.FoundRotationOverflows | BTrees.DeleteFoundStep |
