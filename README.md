# immutable_map in Dafny

A model of `immutable_map.h`, a persistent map from keys to values. The map is
kept in a red-black tree. `insert` and `erase` never change a node: they clone
the nodes on one root-to-target descent and share every other subtree with the
old map. The model follows the header's own structure.

- **`RedBlack`**
  - The node is a datatype. `Leaf` stands for a null child, and `clone` followed by `set_child`, `set_color` or `set_pair` becomes a function that builds the changed copy.
  - The invariants that `validate` checks: no red node with a red child, equal black depth on both sides, and a black root.
  - `node::validate`, which gives the black depth or the violation it throws.
  - The abstract meaning of a tree: the in-order sequence of pairs that `foreach` visits, and the map that sequence denotes.
- **`Cursor`**: the `path` class, a stack of nodes held in a `seq` field that `push` and `pop` reassign.
- **`Paths` and `Search`**: the reasoning about descents.
  - A path is seen as a list of *frames*. Each frame holds an ancestor's colour, its pair, the side the descent takes below it, and the sibling subtree it keeps.
  - Plugging a subtree into the hole at the bottom of the frames rebuilds a tree.
  - `SearchPath` is the descent `find` makes.
- **`Navigate`**: `find`, `find_predecessor` and the three `clone_path` overloads, as loops or recursion over a `Path` object. `find` and `find_predecessor` extend the path; they are proved against the independent descents `SearchPath` and `RightSpine`. The `clone_path` overloads consume the path; each is proved against the frames it pops.
- **`Insertion`**: `insert_imp(kvp, p)` and `insert_fix`, which covers the red-uncle recolouring, the zig-zag double rotation and the straight single rotation.
- **`Fixup`** and **`Deletion`**:
  - `has_black_sibling_with_red_child` and `has_black_sibling_with_black_children`;
  - the pure repairs `delete_fixup_1/2/3` and the recursive `delete_fixup`;
  - `erase_imp` and `erase_intermediate_node`, with all of their cases.
- **`ImmutableMaps`**: the façade, made of `(root_, size_)`, the constructor, `insert`, `erase`, `contains`, `at`, `size`, `empty`, `foreach` and `validate`.

Every map the class can produce is `Valid`. That means its root is a red-black tree with a black root, its keys ascend in order, and `size_` counts its pairs. The empty map, `Insert` and `Erase` each establish this, so the queries (`Contains`, `At`) take it as their precondition. It is the class invariant, not a demand on callers.

Keys are integers and the source's `>` is integer comparison. Values are of any type.

## Model

Some members are split differently from the header:
- **Branches as methods.** These are not separate functions in the header: `Insertion.InsertRotate`, `Deletion.EraseLeaf`, `Deletion.RemoveRedPredecessor`, `Deletion.RemoveBlackPredecessorWithChild`, `Deletion.RemoveBlackLeafPredecessor` and `Deletion.FixLeafDeficit`. Each is one branch, or the tail of a branch, of `insert_fix`, `erase_imp` or `erase_intermediate_node`, moved into its own method. They perform the same steps in the same order.
- **Guarantees stated by lemmas.** Some members carry no contract of their own; lemmas state what they guarantee:
  - `delete_fixup_1/2/3` and the `has_*_sibling` tests: `Fixup.DeleteFixup1Correct`, `Fixup.DeleteFixup2Correct`, `Fixup.DeleteFixup3Correct` and `Fixup.SiblingCases`;
  - `ImmutableMaps.Size` and `ImmutableMaps.IsEmpty`: `ImmutableMaps.SizeIsCount` and `ImmutableMaps.EmptyIffNoKeys`;
  - `ImmutableMaps.Foreach`: `ImmutableMaps.ForeachVisitsAll`.
- **Persistence.** Maps and nodes are values, so an old map keeps its size and its `foreach` sequence after any `insert` or `erase` built from it.
- **Erasing an absent key.** `ImmutableMaps.Erase` gives back the very same map.

| member | source | states |
|---|---|---|
| RedBlack.WithChild | immutable_map.h:178-181 | `clone` then `set_child(s, c)`: the copy has `c` on side `s` and keeps the colour, the pair and the other child |
| RedBlack.WithColor | immutable_map.h:183-186 | `clone` then `set_color(c)`: only the colour changes; the pair and both children are kept |
| RedBlack.WithPair | immutable_map.h:173-176 | `clone` then `set_pair`: only the pair changes; the colour and both children are kept |
| RedBlack.ValidateNode | immutable_map.h:206-223 | `node::validate` returns a depth exactly when no red node below has a red child and all black depths agree. The depth it returns is the black depth (a red node adds 0, a black node 1) |
| RedBlack.OrderedIffSorted | immutable_map.h:199-204 | binary-search-tree ordering holds exactly when the in-order visit of `foreach` yields strictly ascending keys |
| RedBlack.ToMapInOrder | immutable_map.h:199-204 | the map a tree denotes is the map of the pairs `foreach` visits, in visiting order |
| RedBlack.SeqToMapCard | immutable_map.h:86-89 | a key-sorted sequence of pairs denotes a map with exactly as many keys as pairs |
| Cursor.Path.constructor | immutable_map.h:233-236 | a new path is empty |
| Cursor.Path.GetNode | immutable_map.h:238-242 | the top of the stack, or none on an empty path |
| Cursor.Path.GetParent | immutable_map.h:243-247 | the entry below the top, or none with fewer than two entries |
| Cursor.Path.GetGrandParent | immutable_map.h:248-252 | the entry two below the top, or none with fewer than three entries |
| Cursor.Path.Get | immutable_map.h:253-256 | `operator[]`: the entry at depth `n`, or none above the top |
| Cursor.Path.Push | immutable_map.h:258 | appends the node to the stack |
| Cursor.Path.Pop | immutable_map.h:259 | drops the top entry |
| Cursor.Path.Empty | immutable_map.h:260 | holds exactly when the stack is empty |
| Cursor.Path.Size | immutable_map.h:261 | the number of entries |
| Search.SearchPath | immutable_map.h:311-323 | the descent starts at the root, only its last node may hold the key, and when that node does not, its child towards the key is empty |
| Search.SearchFound | immutable_map.h:311-323 | in an ordered tree the descent ends on the key exactly when the key is in the map |
| Search.SearchPathFacts | immutable_map.h:315-321 | each node of the descent is the child of the one before it on the side its key points to, each step heads towards the searched key, and every subtree on it is ordered |
| Search.SearchHitPlug | immutable_map.h:280-287 | on a hit, the tree is the frames above the found node plugged with that node |
| Search.SearchMissPlug | immutable_map.h:292-303 | on a miss, the tree is the descent's frames around an empty hole, and the new pair placed in that hole keeps all keys ascending |
| Search.SearchPlug | immutable_map.h:532-534 | searching a rebuilt tree for the key of the last frame retraces exactly the nodes of the frames |
| Navigate.Find | immutable_map.h:306-323 | `find` pushes exactly the descent towards the key onto the path and returns true exactly when the descent ends on the key |
| Navigate.RightSpine | immutable_map.h:434-442 | the nodes `find_predecessor` walks: they start at the left child and the last of them has no right child |
| Navigate.FindPredecessor | immutable_map.h:434-442 | the path is extended by the right spine of the current node's left subtree |
| Navigate.ClonePath | immutable_map.h:387-400 | empties the path and returns the tree its frames give with `n` in the hole the keys point to |
| Navigate.ClonePathDepth | immutable_map.h:402-416 | pops down to `depth` entries and returns the frames below `depth` plugged with `n` in the key-directed hole |
| Navigate.ClonePathSide | immutable_map.h:418-432 | pops down to `depth` entries and returns the frames below `depth` plugged with `n` (possibly empty) on the given side of the deepest node |
| Navigate.ClonePathDepthStep | immutable_map.h:404-414 | one iteration of the depth-bounded loop keeps the tree being rebuilt |
| Navigate.ClonePathSideStep | immutable_map.h:421-429 | one recursive step, which attaches on the given side and then climbs by keys, keeps the tree being rebuilt |
| Paths.ClonePathStep | immutable_map.h:389-398 | one iteration of `clone_path`'s loop keeps the tree being rebuilt |
| Paths.PlugInOrder | immutable_map.h:387-400 | whatever `clone_path` puts into the hole is visited between the same pairs to its left and right, so the subtrees off the path keep their order |
| Paths.PlugRB | immutable_map.h:387-400 | a red-black subtree of the right black depth, put into a sound context under a parent its colour allows, gives a valid tree |
| Paths.PlugRBInv | immutable_map.h:124-128 | every frame context of a tree that passes `validate` is sound for the subtree in its hole |
| Paths.KeySideStable | immutable_map.h:392-395 | in an ordered tree, a replacement whose key comes from the replaced subtree is sent by `clone_path` to the same side |
| Paths.SameKeySameFrames | immutable_map.h:283-286 | a clone with the same key hangs from the same side of its parent |
| Paths.PathPlugLast | immutable_map.h:315-321 | a descent is its frames plugged with its last node |
| Paths.LeafDeficit | immutable_map.h:481-485 | removing a black leaf leaves its parent one black level short on that side, in a context sound for the repair |
| Insertion.InsertAtPath | immutable_map.h:292-304 | `insert_imp(kvp, p)`: on an empty tree a black root, otherwise a red leaf passed to `insert_fix`. The path ends empty. The result is a valid red-black tree whose pairs are the old ones with the new pair in its ordered place |
| Insertion.InsertFix | immutable_map.h:325-385 | with a red `n` whose only possible fault is a red parent, it empties the path and returns a valid red-black tree with the pairs of the path's tree, in order |
| Insertion.InsertRotate | immutable_map.h:358-383 | the black-uncle half of `insert_fix`: one or two rotations give a valid tree with the same pairs in order |
| Insertion.LocalFacts | immutable_map.h:338-343 | below a red parent a grandparent exists and is black; the uncle and the parent's other child are red-black and as deep as `n` |
| Insertion.RedUncle | immutable_map.h:344-357 | the recolouring keeps the pairs, gives a red subtree one black level deeper than `n`, and moves the only fault up to the grandparent |
| Insertion.Recoloured | immutable_map.h:355-356 | the recoloured grandparent goes back into the grandparent's own hole, with the same pairs |
| Insertion.ZigZag | immutable_map.h:362-372 | the double rotation gives a black red-black subtree, one level deeper than `n`, with the same pairs in order |
| Insertion.Straight | immutable_map.h:373-382 | the single rotation gives a black red-black subtree, one level deeper than `n`, with the same pairs in order |
| Insertion.Rotated | immutable_map.h:370-381 | the rotated subtree goes into the grandparent's hole and the whole tree is valid with the same pairs |
| Fixup.DeficitSibling | immutable_map.h:645-657 | the deficient side of `delete_fixup`'s parent always has a sibling, so the `has_*_sibling` tests never meet a null sibling |
| Fixup.SiblingCases | immutable_map.h:645-657 | for a non-null sibling, exactly one holds: `has_black_sibling_with_red_child`, `has_black_sibling_with_black_children`, or the sibling is red |
| Fixup.DeleteFixup1Correct | immutable_map.h:573-605 | `delete_fixup_1`, on a black sibling with a red child, gives a red-black subtree with the parent's colour, the pairs in order, and the deficit gone |
| Fixup.DeleteFixup2Correct | immutable_map.h:607-616 | `delete_fixup_2` gives a black red-black subtree with the same pairs, as deep as the old sibling |
| Fixup.DeleteFixup3Correct | immutable_map.h:618-643 | `delete_fixup_3`, on a red sibling, gives a black red-black subtree one level deeper than the sibling with the same pairs; its third branch is never taken |
| Fixup.RedSibling | immutable_map.h:618-626 | below a red sibling the parent is black, and the rotated parent, turned red, is deficient below a black sibling |
| Deletion.DeleteFixup | immutable_map.h:541-571 | with `parent` one black level short on `side`, it empties the path and returns a valid red-black tree with the pairs of the path's tree, in order |
| Deletion.Repaired | immutable_map.h:545-546 | a repaired subtree with the same pairs that fits the context goes back into the same hole and gives a valid tree |
| Deletion.Propagated | immutable_map.h:552-559 | recolouring under a black parent moves the deficit to the grandparent, on the parent's side |
| Deletion.EraseImp | immutable_map.h:444-487 | `erase_imp` returns a valid red-black tree whose pairs are the old ones without the last node's pair, in order |
| Deletion.EraseLeaf | immutable_map.h:466-486 | the leaf cases of `erase_imp`: a red leaf is cut off, a black root leaves the empty tree, and any other black leaf is repaired by `delete_fixup` |
| Deletion.OnlyChild | immutable_map.h:453-465 | a node with a single child has a red leaf there; that child, painted black, takes the node's place and the tree stays valid without the node's pair |
| Deletion.LeafRemoved | immutable_map.h:466-486 | cutting off a leaf: a red one leaves a valid tree, and a black one leaves its parent deficient in a context sound for `delete_fixup` |
| Deletion.Base | immutable_map.h:444-446 | the tree `find` walked is the frames above the found node plugged with it; those frames are sound, and the pairs without the found one stay sorted |
| Deletion.EraseIntermediateNode | immutable_map.h:489-539 | a node with two children gives way to its in-order predecessor; the result is valid and holds the pairs without the erased one, in order |
| Deletion.Predecessor | immutable_map.h:495-500 | after `find_predecessor`, the predecessor is the last node of the right spine of the left subtree, its pair comes just before the erased one, and it has no right child |
| Deletion.RemoveRedPredecessor | immutable_map.h:502-510 | a red predecessor is cut off, its pair moves into the erased node's place, and the tree is valid |
| Deletion.RemoveBlackPredecessorWithChild | immutable_map.h:513-523 | a black predecessor's red left child, painted black, takes its place, and the tree is valid |
| Deletion.RemoveBlackLeafPredecessor | immutable_map.h:524-536 | a black leaf predecessor leaves a deficit in the rebuilt tree, and `delete_fixup` repairs it |
| Deletion.FixLeafDeficit | immutable_map.h:532-536 | `find` on the rebuilt tree retraces the path to the deficient parent, and `delete_fixup` gives a valid tree with the same pairs |
| Deletion.Retraced | immutable_map.h:533-534 | searching the rebuilt tree for the saved key ends on the parent of the removed leaf, after exactly the nodes of its context |
| Deletion.PredRed | immutable_map.h:502-510 | with a red predecessor, the rebuilt tree is valid and holds the pairs without the erased one |
| Deletion.PredBlackWithChild | immutable_map.h:513-523 | with a black predecessor that has a child, the rebuilt tree is valid and holds the pairs without the erased one |
| Deletion.PredBlackLeaf | immutable_map.h:524-532 | with a black leaf predecessor, the tree rebuilt with an empty hole has the pairs without the erased one and a context sound for the repair; `kvp` is the key of the hole's parent |
| ImmutableMaps.EmptyMap | immutable_map.h:38-41 | the default map is valid, holds no keys and has size 0 |
| ImmutableMaps.SizeIsCount | immutable_map.h:86-89 | `size()` is the number of keys the map holds |
| ImmutableMaps.EmptyIffNoKeys | immutable_map.h:81-84 | `empty()` holds exactly when the map holds no key |
| ImmutableMaps.ForeachVisitsAll | immutable_map.h:119-122 | `foreach` visits exactly `size()` pairs in ascending key order, each with the value the map holds for its key, and visits every key |
| ImmutableMaps.Validate | immutable_map.h:124-128 | `validate` passes exactly when the root is a red-black tree with a black root; a red root fails with "root is red" |
| ImmutableMaps.Contains | immutable_map.h:112-117 | `contains` is true exactly when the key is in the map |
| ImmutableMaps.At | immutable_map.h:65-79 | `at` fails (out_of_range) exactly when the key is absent; otherwise it returns the value the map holds for the key |
| ImmutableMaps.Insert | immutable_map.h:277-290 | the result passes `validate` and binds the key to the new value. The size is unchanged when the key was present and grows by one otherwise |
| ImmutableMaps.Erase | immutable_map.h:103-110 | an absent key gives back the same map. Otherwise the key is removed and the size drops by one, and the result passes `validate` |
| ImmutableMaps.HitValue | immutable_map.h:65-70 | the node `find` hits holds the value the map gives for the key |
| ImmutableMaps.Replaced | immutable_map.h:281-287 | the path cloned around the node with its pair replaced is valid and ordered, has as many pairs, and rebinds only that key |
| ImmutableMaps.Added | immutable_map.h:288-289 | the tree `insert_imp(kvp, p)` builds holds one more pair, and its map is the old one plus the new key |
| ImmutableMaps.Removed | immutable_map.h:107-109 | the pairs `erase_imp` leaves are sorted and one fewer, and their map is the old one without the key |
| ImmutableMaps.MapReplaced | immutable_map.h:284 | a new value for a key in a sorted sequence keeps it sorted and rebinds only that key |
| ImmutableMaps.MapInserted | immutable_map.h:288 | a pair placed in order adds a key that was absent |
| ImmutableMaps.MapRemoved | immutable_map.h:107 | dropping one pair of a sorted sequence removes exactly its key |
| RedBlack.SortedUnique | immutable_map.h:199-204 | two key-sorted pair sequences that denote the same map are equal, so a map fixes the sequence `foreach` visits |
| ImmutableMaps.SameContentsSameForeach | immutable_map.h:119-122 | two valid maps with the same keys and values have the same size and the same `foreach` sequence |
| ImmutableMaps.EraseInsertRoundTrip | immutable_map.h:91-110 | for a key not in the map, `erase(insert(m, k, v), k)` holds the same pairs as `m`, has the same size, and its `foreach` visits the same sequence |
| ImmutableMaps.InsertTwice | immutable_map.h:65-101 | after `insert(insert(m, k, v1), k, v2)`, `at(k)` gives `v2`, and the size is that of `insert(m, k, v1)` |
| ImmutableMaps.Scenario | immutable_map.h:38-122 | inserting (10, 3.14), (15, 6.28) and (20, 3.14) and then erasing 15 leaves two pairs, visited as [(10, 3.14), (20, 3.14)]. 11 is absent and `at(10)` is 3.14. The map before the erase still has size 3 and holds 15 |

## Left out

- Reference counting and pointer identity of `std::shared_ptr` are not modelled. Structural sharing between map versions, and the memory it saves, is therefore not visible in the model.
- The copy and move constructors and the assignment operators (immutable_map.h:42-63) are not modelled. They only transfer `(root_, size_)`.
- The path's fixed capacity of `sizeof(size_t) * 16` slots (immutable_map.h:264) is not modelled: the path is an unbounded sequence, and an overflow of that array is not captured.
- The `std::function` callback of `foreach` is not modelled; the model returns the sequence of pairs the callback would receive, in order.
- Exception objects and their message text are not modelled: `at`'s `out_of_range` is `Lookup.KeyNotFound`, and the `runtime_error`s of `validate` are `Verdict.Failed(why)` with only the `Violation` tag.
- `has_red_sibling` (immutable_map.h:659-663) is not modelled, because nothing calls it.
- Key genericity is not modelled: keys are `int`, and the header's `>` and `==` on keys are integer comparisons.
- `size_t` wrap-around is not modelled: sizes are unbounded. `size_ - 1` happens only after a hit, so it cannot wrap, but a wrap of `size_ + 1` past 2^64 is not captured.
- Three constructs in the header do not compile as written, and the model follows their evident intent:
  - `insert(const pair&)` (immutable_map.h:94) calls `insert(ptr)`, for which no overload exists. Both `insert` overloads are modelled as `ImmutableMaps.Insert`, which goes through `insert_imp`.
  - Both overloads of `at` write `p->get_node()` on a `path` (immutable_map.h:70 and 77), but a `path` has no `operator->`. The model reads `p.get_node()`.
  - Both overloads of `at` throw `std::out_of_range()` with no argument (immutable_map.h:68 and 75), but `out_of_range` has no default constructor. The model returns `Lookup.KeyNotFound`.
