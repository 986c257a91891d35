# Red-black tree without a sentinel, in Dafny

This project models `src/rbtree.c`, a red-black tree of integer keys whose
nodes are linked by raw `parent`/`left`/`right` pointers. NULL stands in
for the missing leaves, and an absent node counts as BLACK (`IS_BLACK`).
Equal keys are allowed, and insertion sends them to the right. The
operations are:

- `new_rbtree`, which creates an empty tree;
- `_rotate_tree`, a single rotation whose direction is read off the links;
- `rbtree_insert`, a binary-search placement of a RED leaf followed by the
  bottom-up fixup loop;
- `rbtree_find`, `rbtree_min` and `rbtree_max`;
- `_find_successor`;
- `rbtree_erase`, which copies successor keys down to a leaf, runs the
  five-case fixup loop for a BLACK leaf, and then unlinks that leaf;
- `rbtree_to_array`, an in-order walk with an explicit stack.

The C nodes live in an arena inside the class `RedBlackTree.RBTree`.
- Slot `i` holds one node: `keys[i]`, `colors[i]`, `lefts[i]`,
  `rights[i]`, `parents[i]`.
- A slot number stands for a pointer and `NIL` (-1) for NULL.
- `root` is the handle's root link.

Each operation is a method that makes the same field writes as the C
code, in the same order, inside the same loops. One loop changes form:
the `do`-`while` of `rbtree_to_array` becomes a `while` loop, which is
the same loop because the tree must be non-empty there.

A ghost field `T` holds the tree as a value (`RBTrees.Tree`). The predicate
`Wf` says that the slots describe `T` exactly, with every parent link
consistent. Contracts are therefore stated on `T`:
- its in-order key sequence `Inorder(T)`;
- its set of slots `Ids(T)`;
- `Sorted` (BST order, non-decreasing);
- `RedFree` (no RED node with a RED child);
- `Balanced` (equal black height on every path).

Loop states are described by a zipper: a `Path` of frames from the cursor
up to the root. `Pre(path)` and `Post(path)` are the keys before and after
the cursor's subtree.

Files:
- `trees.dfy` (module `RBTrees`): the tree value, the zipper and their lemmas.
- `arena.dfy` (module `Arena`): how the slot columns represent a tree, and
  how link writes change that.
- `insertion.dfy` (module `Insertion`): the placement function and the
  fixup invariant of `rbtree_insert`.
- `erasure.dfy` (module `Erasure`): the key shift, the shortage invariant of
  the erase fixup, and its five cases.
- `walk.dfy` (module `InorderWalk`): the state of the stack walk of
  `rbtree_to_array`.
- `rbtree.dfy` (module `RedBlackTree`): the class and its methods.

## Model

| member | source | states |
|---|---|---|
| RedBlackTree.RBTree.constructor | src/rbtree.c:8-21 | `new_rbtree`: an empty, valid red-black tree with a NULL root and no slots |
| RedBlackTree.RBTree.Rotate | src/rbtree.c:40-76 | `n` is promoted over its parent. The tree becomes the rotation of that subtree in the direction read from the links, in place, with the grandparent link or `root` following. The old parent is returned. Keys, colours, the in-order sequence and the node set are unchanged |
| RedBlackTree.RBTree.Relink | src/rbtree.c:43-72 | The link writes of a rotation, in the C order. Afterwards the parent, left and right links of P, N, N's inner child and the grandparent are exactly those of the rotated shape, and every other slot is untouched (`Arena.Relinked`) |
| Arena.RelinkedAt | src/rbtree.c:43-72 | The outcome of those writes, slot by slot, including the case where P was the root (no grandparent) and the case where N's inner child is NULL |
| Arena.RotateRepr | src/rbtree.c:40-76 | After the rotation's writes, the slots describe the rotated tree and still have distinct slots |
| RBTrees.RotInorder | src/rbtree.c:40-76 | A rotation keeps the in-order key sequence and the node set, and keeps nodes distinct |
| RedBlackTree.RBTree.SetColor | src/rbtree.c:124-126 | A colour write changes that node's colour in `T`, and nothing else |
| RedBlackTree.RBTree.SetKey | src/rbtree.c:177 | A key write changes that node's key in `T`; links, colours, the node set and the root's colour are unchanged |
| RedBlackTree.RBTree.Insert | src/rbtree.c:78-133 | `rbtree_insert` as written. The new node takes the next slot. The in-order sequence becomes that of the binary-search placement `InsertLeaf`, and the node set gains the new slot. A tree that was sorted, red-free and balanced stays so. The returned node is in the tree, and it is the new node exactly when the first round of the loop neither climbs (RED uncle) nor makes the inner rotation (`CursorMoves` of the position the new leaf was hung at, which the ghost result `path` names). From an empty tree the result is a single RED root |
| RedBlackTree.RBTree.InsertBlackRoot | src/rbtree.c:97-130 | Corrected insert: everything `Insert` promises (placement, keys, node set, red-black kept, and the returned node is the new one exactly when `CursorMoves` fails), and the root is BLACK afterwards, so `Valid` is kept; from an empty tree the result is a single BLACK root |
| RedBlackTree.RBTree.InsertNewNode | src/rbtree.c:91-95 | Corrected insert that returns the node it created: the new slot, holding `key` and part of the tree. The other promises of `Insert` are kept: the placement position `path`, keys, in-order sequence, node set, red-black kept, and a single RED root from an empty tree |
| Insertion.InnerInsertMoves | src/rbtree.c:111-115 | Inserting 2 into the red-black tree 1 -> 3 hangs the leaf as an inner grandchild of a RED parent, so `CursorMoves` holds and `rbtree_insert` returns a node other than the new one |
| RedBlackTree.RBTree.Descend | src/rbtree.c:80-89 | The descent goes left exactly when `key` is smaller than the node's key. It ends at the NULL link (owner `P`, side `left`) where `InsertLeaf` hangs the new node. Nothing changes |
| RedBlackTree.RBTree.PlaceLeaf | src/rbtree.c:90-95 | A RED leaf holding `key` in the next slot is hung in that link, with parent `P`. The tree becomes `InsertLeaf(old T)` |
| Insertion.InsertLeafInorder | src/rbtree.c:84-95 | In a sorted tree, placement puts the key after every equal key and before every greater one (`InsertAfterEqual`) |
| Insertion.InsertAfterEqualPlace | src/rbtree.c:88 | `InsertAfterEqual` inserts at the first position holding a greater key |
| Insertion.InsertAfterEqualSorted | src/rbtree.c:84-95 | That insertion keeps a sorted sequence sorted |
| Insertion.InsertLeafMultiset | src/rbtree.c:84-95 | Placement adds exactly one copy of `key` to the multiset of keys |
| Insertion.InsertAfterEqualMultiset | src/rbtree.c:84-95 | `InsertAfterEqual` adds exactly one copy of `key` |
| Insertion.InsertLeafIds | src/rbtree.c:91-95 | Placement adds the new slot to the node set and keeps nodes distinct |
| Arena.HangLeaf | src/rbtree.c:91-95 | After the new slot is written and linked, the slots describe the tree with the new leaf |
| Insertion.InsStart | src/rbtree.c:94-98 | A RED leaf hung into a red-black tree satisfies the invariant of the fixup loop (`InsInv`: only the cursor may have a RED parent) |
| Insertion.InsDone | src/rbtree.c:99 | When the parent is BLACK or missing, the loop ends with a red-free, balanced tree |
| Insertion.InsRoot | src/rbtree.c:105-108 | Blackening a RED parent that is the root restores the invariants |
| Insertion.InsRedUncle | src/rbtree.c:122-128 | The red-uncle recolouring keeps the loop invariant with G as the new cursor |
| Insertion.InsRotate | src/rbtree.c:110-120 | The black-uncle rotations and recolouring give a red-free, balanced tree |
| RedBlackTree.RBTree.Rebalance | src/rbtree.c:97-130 | The fixup loop keeps keys, the in-order sequence and the node set. A red-black tree on entry gives a red-black tree on exit. The node it ends at is in the tree. It is the new node exactly when `CursorMoves` fails at the entry position: P BLACK or missing, P the root, or a BLACK uncle with N an outer grandchild |
| RedBlackTree.RBTree.Repair | src/rbtree.c:100-129 | One round of the loop. The root case and the black-uncle case end the loop with the invariants restored; the red-uncle case climbs two levels with the invariant kept. N changes exactly when `CursorMoves` holds: a climb to G, or the inner rotation, which makes N the old P |
| RedBlackTree.RBTree.Kin | src/rbtree.c:101-104 | G is the grandparent and U the uncle (NULL or a node with the uncle's colour) |
| RedBlackTree.RBTree.BlackenRoot | src/rbtree.c:105-108 | A RED root parent turns BLACK: only P's colour slot changes, and the tree is P's frame with P BLACK. The invariants hold |
| RedBlackTree.RBTree.RotateUp | src/rbtree.c:110-121 | The optional inner rotation, the outer rotation and the recolouring. The tree becomes `RotateFixTree`. The returned N is the cursor for an outer grandchild and the old parent after an inner rotation |
| RedBlackTree.RBTree.RecolorUp | src/rbtree.c:122-129 | P and U turn BLACK and G RED; the loop state moves to G |
| RedBlackTree.RBTree.Find | src/rbtree.c:135-142 | The result is the node the binary search reaches (`Search`), whose key equals `key`. In a sorted tree it is NULL exactly when `key` is absent. Nothing changes |
| RBTrees.SearchSpec | src/rbtree.c:135-142 | A found node holds `key` and belongs to the tree. In a sorted tree the search fails exactly when the key is absent |
| RedBlackTree.RBTree.Min | src/rbtree.c:144-149 | On a non-empty tree, the leftmost node. Its key is the first in order and, when sorted, no greater than any key |
| RedBlackTree.RBTree.Max | src/rbtree.c:151-156 | On a non-empty tree, the rightmost node. Its key is the last in order and, when sorted, no smaller than any key |
| RBTrees.LeftmostFirst | src/rbtree.c:146-147 | The leftmost node holds the first key in order |
| RBTrees.RightmostLast | src/rbtree.c:153-154 | The rightmost node holds the last key in order |
| RBTrees.SortedEnds | src/rbtree.c:144-156 | In a sorted sequence the first element is the minimum and the last the maximum |
| RedBlackTree.RBTree.FindSuccessor | src/rbtree.c:159-168 | Without a right subtree, the left child (possibly NULL). Otherwise the leftmost node of the right subtree, which holds the first key of that subtree |
| RedBlackTree.RBTree.Erase | src/rbtree.c:170-248 | On a red-free, balanced tree and a node `p` of it: the in-order sequence loses exactly the entry at `p`'s rank, which holds `p`'s key. So the multiset loses one copy of that key, and a sorted tree stays sorted. The tree stays red-free and balanced, exactly one slot (`gone`) leaves it, and 0 is returned. A BLACK root stays BLACK, so all four red-black invariants are kept, and `Valid` is kept |
| Erasure.RankKey | src/rbtree.c:170-179 | Node `s` holds the key at its rank in the in-order sequence. Removing that entry leaves the keys on either side of `s` and its subtrees |
| Erasure.LocateSpec | src/rbtree.c:170 | Every node of the tree is reached by some zipper, so `p` can be given as a cursor |
| Erasure.WithoutKeys | src/rbtree.c:170-248 | Removing one entry drops one copy of it from the multiset and keeps a sorted sequence sorted |
| Erasure.WithoutSlices | src/rbtree.c:170-248 | `Without(w, i)` is `w` cut around index `i` |
| RedBlackTree.RBTree.ShiftDown | src/rbtree.c:175-179 | The key-copy loop ends at a leaf `e` (no children). The keys around the leaf's position are those of the original sequence without `p`'s key. Colours and links are unchanged, and red-free, balanced and the root's colour are kept |
| RedBlackTree.RBTree.ShiftOnce | src/rbtree.c:176-178 | One copy step. Slot N takes the key of slot N' and no other key changes. The cursor moves to `Heir(e)`, the leftmost node of the right subtree or else the left child, whose position is `HeirPath` below N, and which is lower. The sequence without the cursor's key and the root's colour are kept |
| Erasure.ShiftStep | src/rbtree.c:175-179 | The same step on the tree value, including the left-child fallback of `_find_successor` |
| Erasure.RekeyShape | src/rbtree.c:177 | Changing a key does not change red-freedom or balance |
| Erasure.ShortStart | src/rbtree.c:182-184 | Cutting a BLACK leaf leaves the tree one black short on the cursor's path (`Short`) |
| Erasure.RedLeafCut | src/rbtree.c:182-244 | Cutting a RED leaf needs no fixup |
| Erasure.ShortDone | src/rbtree.c:184 | A shortage at the root is no shortage |
| RedBlackTree.RBTree.IsBlackAt | src/rbtree.c:6 | `IS_BLACK` of the link to a subtree is true exactly when that subtree is missing or has a BLACK root |
| RedBlackTree.RBTree.Look | src/rbtree.c:186-201 | The reads at the top of the loop. P is the parent, S the sibling, C the close and D the distant nephew, and `IS_BLACK` of each agrees with the tree |
| RedBlackTree.RBTree.LendRed | src/rbtree.c:202-206 | Red sibling: S is rotated over P, S turns BLACK and P RED (`RedSiblingPath`) |
| Erasure.CaseRedSibling | src/rbtree.c:202-206 | That case keeps the shortage and the keys on either side, and moves to a later case (smaller `Phase`) |
| RedBlackTree.RBTree.FarRed | src/rbtree.c:209-215 | Red distant nephew: S is rotated over P and takes P's colour, and P and D turn BLACK (`FarRedPath`) |
| Erasure.CaseFarRed | src/rbtree.c:209-215 | That case leaves a red-free, balanced tree with the same keys |
| RedBlackTree.RBTree.NearRed | src/rbtree.c:217-221 | Red close nephew: C is rotated over S, C turns BLACK and S RED (`NearRedPath`) |
| Erasure.NearRedSound | src/rbtree.c:217-221 | The new sibling is red-free and balanced, BLACK, with S's black height |
| Erasure.NearRedKeys | src/rbtree.c:217-221 | That rotation keeps the sibling's in-order keys |
| Erasure.CaseNearRed | src/rbtree.c:217-221 | That case keeps the shortage and the keys, and moves on to the distant-nephew case |
| RedBlackTree.RBTree.Redden | src/rbtree.c:222-232 | S turns RED |
| Erasure.CaseRedParent | src/rbtree.c:223-227 | Red parent: S RED and P BLACK leave a red-free, balanced tree with the same keys |
| Erasure.CaseClimb | src/rbtree.c:229-232 | All BLACK: S RED moves the shortage to P, one level up (smaller `Weight`) |
| RedBlackTree.RBTree.MendStep | src/rbtree.c:185-233 | One round of the fixup loop. It ends in a red-free, balanced tree or keeps the loop state, and the measure (`Weight`, `Phase`) drops. A BLACK root stays BLACK in every case |
| Erasure.RootAbove | src/rbtree.c:184-186 | Seen from a cursor below the root, the root's colour is that of the topmost ancestor on the path |
| Erasure.RedSiblingRoot | src/rbtree.c:202-206 | The red-sibling case keeps a BLACK root BLACK: when P is the root, S replaces it and has turned BLACK |
| Erasure.FarRedRoot | src/rbtree.c:209-215 | The distant-nephew case keeps a BLACK root BLACK: S takes P's colour |
| Erasure.NearRedRoot | src/rbtree.c:217-221 | The close-nephew case does not change the root's colour |
| Erasure.RelievedRoot | src/rbtree.c:223-232 | Turning S RED and P BLACK keeps a BLACK root BLACK |
| RedBlackTree.RBTree.Mend | src/rbtree.c:182-235 | The fixup loop. The leaf stays in place, and cutting it gives a red-free, balanced tree with the same keys around it. A BLACK root stays BLACK |
| RedBlackTree.RBTree.Unlink | src/rbtree.c:237-244 | The leaf `p` is cut from its parent's link, or `root` becomes NULL. Only that slot leaves the tree, and a BLACK root stays BLACK (or the tree is empty) |
| Arena.Unhang | src/rbtree.c:238-241 | After clearing the parent's link, the slots describe the tree without the leaf |
| Erasure.CutInorder | src/rbtree.c:237-244 | Without the leaf, the in-order sequence is the keys on either side of it |
| RedBlackTree.RBTree.EraseLeaf | src/rbtree.c:180-245 | From the leaf on: a fixup when the leaf is BLACK, then the unlink. The result is red-free and balanced, its keys are those on either side of the leaf, and only the leaf's slot leaves. A BLACK root stays BLACK |
| RedBlackTree.RBTree.ToArray | src/rbtree.c:250-270 | On a non-empty tree with a stack of at least the tree's height and room for every key: `arr` starts with the in-order key sequence, the rest of `arr` is unchanged, and 0 is returned |
| InorderWalk.WalkStart | src/rbtree.c:252-255 | The walk starts with an empty stack at the root, nothing written |
| InorderWalk.WalkPush | src/rbtree.c:258-261 | Pushing the current node and going left keeps the walk invariant. The stack stays within the tree's height |
| InorderWalk.WalkPop | src/rbtree.c:262-266 | Popping writes the next key in order and goes right, keeping the invariant |
| InorderWalk.WalkDone | src/rbtree.c:267 | An empty stack and a NULL cursor mean every key has been written in order |
| RBTrees.HeightSize | src/rbtree.c:254 | The height never exceeds the number of keys, so a stack of `size` slots suffices |

## Left out

- Memory management is left out: `calloc`, `free`, `_delete_node` and `delete_rbtree`. A new node is the next arena slot. A freed node leaves the tree's node set but keeps its slot.
- Allocation failure is left out; the C code does not check for it.
- The variable-length stack `stack[(int)n]` is an array of `n` slots. That is a precondition `Height(T) <= n`, which covers every stack depth the walk reaches.
- Calls that the C code leaves undefined become preconditions:
  - `rbtree_min`/`rbtree_max` on an empty tree;
  - `rbtree_to_array` on an empty tree, or with `arr` too short;
  - `rbtree_erase` of a node that is not in the tree.
- The commented-out sentinel code is dead and is not modelled.
- RedBlackTree.RBTree.Erase requires a red-free, balanced tree. Without one the fixup can dereference a NULL sibling.
- The stale `C`/`D` values kept when `S` is NULL are passed through `Look` unchanged. Under the loop invariant `S` is never NULL, so they are never read.

## Findings

| source | as written | input that shows it | evidently intended | confidence | as-written member | corrected member |
|---|---|---|---|---|---|---|
| src/rbtree.c:97-130 | The fixup loop stops as soon as P is NULL. A RED node at the root is never recoloured: the first node of an empty tree, or a grandparent reddened by a red-uncle step when it is the root | `rbtree_insert` into an empty tree leaves a single RED root | The root is BLACK after every insert, as the root case at lines 105-108 intends | not executed | RedBlackTree.RBTree.Insert | RedBlackTree.RBTree.InsertBlackRoot |
| src/rbtree.c:132 | `rbtree_insert` returns the loop variable `N`. After a red-uncle climb N is an ancestor of the new node, and after the inner rotation it is the old parent | Inserting 1, 3, then 2: the new node 2 is an inner grandchild, so the rotation makes N the node holding 3 | The node just created is returned, as callers of an insert expect | not executed | Insertion.InnerInsertMoves | RedBlackTree.RBTree.InsertNewNode |
