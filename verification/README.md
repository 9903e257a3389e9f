# Verified models of the repository's containers, pointers, pool and log pipeline

This project models five parts of the repository in Dafny and proves what they are for.

* **Red-black tree** (`TreeShape.dfy`, `RedBlackRules.dfy`, `TreeSearch.dfy`, `RedBlackTree.dfy`). `RedBlackTree` is a class
  over linked `Node` objects with the shared black sentinel, and its methods write the same links, colors and fields in the
  same order as the C++ code. A ghost tree `shape` and a ghost zipper (`Context`) say where a loop stands; `View` is a snapshot
  of all links, so that what pointer writes do is proved once, about snapshots, and used by the methods. Each node carries a
  ghost number, its `rank`; valid trees order nodes by rank and by key alike, which keeps the frames of pointer writes cheap to
  prove. `rotations` counts the calls of `RotateLeft` and `RotateRight`, which alone change it. The body of a source loop is split at the cases that its own comments name, one method for each.
* **Reference counts** (`ReferenceCounts.dfy`, `SharedPointer.dfy`). Control blocks are objects with both counts and the
  destruction flag. `Memory` holds the smart-pointer variables; objects own further handles as members. Releasing a handle may
  destroy an object, which releases its members one by one, and so on, with any number of destructions open at the same time.
  Each release takes the multiset of the handles that are still outside as a ghost argument, and keeps the counts exact at
  every level of the recursion. `made` remembers all blocks ever made, so that freed ones can be spoken of; `Evolves` says what
  releases leave alone, `Keeps` that they do not break up objects that hold each other, and `OwnedSurvive` that exactly the
  objects with an owner left survive. `Reset` releases a member before it clears it; in between, `Cleared` is the snapshot
  by which the counts are exact, and `Anchored` says that the object which has the member will still be there.
* **Thread pool and parallel sum** (`ThreadPool.dfy`, `WorkerPool.dfy`, `ParallelAccumulate.dfy`). `ThreadPool` is the protocol
  as a step machine, one step for each critical section, notification, task and join of any number of workers and one client;
  spurious wakeups included. `WorkerPool` is the pool as an object, with tasks and their futures; its methods interleave with the other
  threads and follow these steps. `ParallelAccumulate` runs on that pool.
* **Hash table** (`HashTable.dfy`). Buckets are sequences of entries; the hash function is arbitrary. A ghost map is what the
  table stands for.
* **IPv4 log pipeline** (`Powers.dfy`, `Bits.dfy`, `Decimals.dfy`, `IpV4Address.dfy`, `Filter.dfy`, `Lines.dfy`,
  `StreamProcessor.dfy`, `Helpers.dfy`). Addresses are numbers below 2^32, with shifts that wrap and bitwise operations defined
  on binary digits. The parser walks through its text with a pointer; the batching filter and the line chunker are loops over
  their input; `Send` composes them as the sender does.

`dafny verify dfyconfig.toml` checks everything. `Options.dfy` is `std::optional`.

Where the code and its documentation disagree, the model follows the code:

* The tree's README promises duplicate keys. The compiled code rejects them, and the comment on `Insert` ("iterator to inserted
  element") does not mention that the result is then `end()`. The tree is modelled as a set.
* An iterator from `Find` takes the found node for the sentinel (`red_black_tree.h:124-129`, `red_black_tree.h:804`), so `++` and
  `--` leave it where it is. `Increment` states the exact condition under which `++` works: the iterator carries the sentinel of
  the tree. `Erase` accepts such iterators and builds a new one.
* The comment beside `(size() + 1) / kLoadFactor` says "ceil" while the conversion truncates. `TruncationSuffices` shows that
  this is enough.
* `Reset` is documented to empty the pointer whatever it held (`smart_shared_ptr.h:144-148`). On a member whose object loses its
  last owner by this very release it runs the destructor of that object while the member still holds the released handle.
  `Reset` is modelled in the source's order and proved where the object stays owned, and that condition is proved exact.
* A README listing shows a load factor of 0.12 after `Rehash(2)` of a table with two entries; by the code, and by the contract of
  `Rehash`, that table has four buckets and a load factor of 0.5.

Assumptions that the source makes as well: the comparison is a strict weak order and does not change; one client thread uses a
pool; a task is one step that ends; `+=` and `+` of the summed type are the same operation; a managed object's destructor only releases
the handles the object owns; operations on a hash table other than `Rehash` need at least one bucket. `Key` equality in
`GetSuccessor` is equality of keys.

## Model

| member | source | states |
|---|---|---|
| `RedBlackTrees.SharedNil.GetNil` | `m3-algorithms-and-data-structures/3-red-black-tree-impl/red_black_tree.h:219-227` | the first call makes the sentinel, black and linked to itself, and every later call returns the same one |
| `RedBlackTrees.RedBlackTree.constructor` | `m3-algorithms-and-data-structures/3-red-black-tree-impl/red_black_tree.h:229-232` | an empty tree over the sentinel is valid |
| `RedBlackTrees.RedBlackTree.RelinkLeft` | `m3-algorithms-and-data-structures/3-red-black-tree-impl/red_black_tree.h:638-661` | the exact new value of every link that a left rotation writes, and that no other link changes |
| `RedBlackTrees.RedBlackTree.RelinkRight` | `m3-algorithms-and-data-structures/3-red-black-tree-impl/red_black_tree.h:665-688` | the same for a right rotation |
| `RedBlackTrees.RedBlackTree.RotateLeft` | `m3-algorithms-and-data-structures/3-red-black-tree-impl/red_black_tree.h:638-661` | anywhere in a tree, a left rotation turns the subtree into its rotation; everything around it, and the agreement of parent and child links, is kept; the tree counts the rotation |
| `RedBlackTrees.RedBlackTree.RotateRight` | `m3-algorithms-and-data-structures/3-red-black-tree-impl/red_black_tree.h:665-688` | the same for a right rotation |
| `TreeShape.Rotated` | `m3-algorithms-and-data-structures/3-red-black-tree-impl/red_black_tree.h:638-688` | on any snapshot with a zipper focus, the writes of a rotation yield a linked tree whose focus is the rotated subtree |
| `TreeShape.RotateNodes` | `m3-algorithms-and-data-structures/3-red-black-tree-impl/red_black_tree.h:638-688` | a rotation keeps the set of nodes |
| `RedBlackTrees.RedBlackTree.RecolorFamily` | `m3-algorithms-and-data-structures/3-red-black-tree-impl/red_black_tree.h:405-410` | the red-uncle case, pointer writes included, for both sides |
| `RedBlackTrees.RedBlackTree.RecolorOuter` | `m3-algorithms-and-data-structures/3-red-black-tree-impl/red_black_tree.h:424-425` | the recoloring of the black-uncle case, for both sides |
| `RedBlackRules.RecoloredFits` | `m3-algorithms-and-data-structures/3-red-black-tree-impl/red_black_tree.h:405-410` | recoloring moves the only red-red violation two levels up and keeps all black heights |
| `RedBlackRules.InnerTurned` | `m3-algorithms-and-data-structures/3-red-black-tree-impl/red_black_tree.h:417-422` | turning an inner child outward keeps the violation where it was and all black heights |
| `RedBlackRules.OuterFits` | `m3-algorithms-and-data-structures/3-red-black-tree-impl/red_black_tree.h:424-426` | the last rotation and recoloring leave no violation |
| `RedBlackRules.InsertionDone` | `m3-algorithms-and-data-structures/3-red-black-tree-impl/red_black_tree.h:450-453` | when the loop ends, blackening the root satisfies all red-black rules |
| `RedBlackTrees.RedBlackTree.InsertFixupLeft` | `m3-algorithms-and-data-structures/3-red-black-tree-impl/red_black_tree.h:399-428` | one round on the left: the violation moves strictly up, and if the tree is rotated, at most twice, it is gone |
| `RedBlackTrees.RedBlackTree.InsertFixupRight` | `m3-algorithms-and-data-structures/3-red-black-tree-impl/red_black_tree.h:430-449` | the mirror image |
| `RedBlackTrees.RedBlackTree.InsertFixup` | `m3-algorithms-and-data-structures/3-red-black-tree-impl/red_black_tree.h:387-454` | from any tree with one red-red violation, full validity is restored, and `RotateLeft` and `RotateRight` are called at most twice; the loop terminates because the violation only moves up |
| `RedBlackTrees.RedBlackTree.FindPlace` | `m3-algorithms-and-data-structures/3-red-black-tree-impl/red_black_tree.h:322-345` | the search ends at an equivalent node, or at the one empty place where the key keeps the order |
| `RedBlackTrees.RedBlackTree.AttachLeaf` | `m3-algorithms-and-data-structures/3-red-black-tree-impl/red_black_tree.h:348-356` | the new leaf hangs on the side that the comparison chooses, and the count goes up by one |
| `RedBlackTrees.RedBlackTree.InsertUnder` | `m3-algorithms-and-data-structures/3-red-black-tree-impl/red_black_tree.h:347-361` | a new key gives a valid tree whose nodes are the old ones and one fresh node with the key |
| `RedBlackTrees.RedBlackTree.InsertFirst` | `m3-algorithms-and-data-structures/3-red-black-tree-impl/red_black_tree.h:314-320` | insertion into the empty tree |
| `RedBlackTrees.RedBlackTree.Insert` | `m3-algorithms-and-data-structures/3-red-black-tree-impl/red_black_tree.h:309-362` | a new key gives a valid tree with exactly one more, fresh node, within two rotations; an equivalent key gives `end()` and leaves every node, link and color as it was |
| `RedBlackTrees.RedBlackTree.FindNode` | `m3-algorithms-and-data-structures/3-red-black-tree-impl/red_black_tree.h:456-472` | returns an equivalent node exactly when there is one; the search ends at that node or at the one empty place where the key would keep the order, and the links it went down are the depth of that place, at most height and 2 log2(size + 1) |
| `RedBlackTrees.RedBlackTree.Find` | `m3-algorithms-and-data-structures/3-red-black-tree-impl/red_black_tree.h:124-129` | the iterator designates an equivalent node or `end()`, and carries the node as its own sentinel |
| `RedBlackTrees.RedBlackTree.LowerBoundImpl` | `m3-algorithms-and-data-structures/3-red-black-tree-impl/red_black_tree.h:474-492` | the least node not less than the key, or the sentinel when there is none; the descent ends at the hole where the lesser nodes end, and the links it went down are the depth of that hole, at most 2 log2(size + 1) |
| `RedBlackTrees.RedBlackTree.UpperBoundImpl` | `m3-algorithms-and-data-structures/3-red-black-tree-impl/red_black_tree.h:494-512` | the least node greater than the key, or the sentinel when there is none; the same bound on the descent to the hole where the nodes not greater end |
| `RedBlackTrees.RedBlackTree.LowerBound` | `m3-algorithms-and-data-structures/3-red-black-tree-impl/red_black_tree.h:145-154` | an iterator to a node not less than the key, such that no other such node comes before it, or `end()` when there is none |
| `RedBlackTrees.RedBlackTree.UpperBound` | `m3-algorithms-and-data-structures/3-red-black-tree-impl/red_black_tree.h:157-165` | the same for the nodes greater than the key |
| `TreeSearch.LowerBoundIsFirst` | `m3-algorithms-and-data-structures/3-red-black-tree-impl/red_black_tree.h:474-492` | any node not less than the key is the lower bound itself or greater than it |
| `TreeSearch.UpperBoundIsFirst` | `m3-algorithms-and-data-structures/3-red-black-tree-impl/red_black_tree.h:494-512` | any node greater than the key is the upper bound itself or greater than it |
| `RedBlackTrees.RedBlackTree.EqualRange` | `m3-algorithms-and-data-structures/3-red-black-tree-impl/red_black_tree.h:167-187` | the range is empty exactly when no node is equivalent, and otherwise holds exactly the one equivalent node |
| `TreeSearch.RangeIsEquivalent` | `m3-algorithms-and-data-structures/3-red-black-tree-impl/red_black_tree.h:167-187` | for any lower and upper bound of a key in any ordered tree: they delimit exactly the equivalent nodes, of which there is at most one |
| `RedBlackTrees.RedBlackTree.GetMinimum` | `m3-algorithms-and-data-structures/3-red-black-tree-impl/red_black_tree.h:708-719` | the leftmost node of the subtree, with the path to it |
| `RedBlackTrees.RedBlackTree.Leftmost` | `m3-algorithms-and-data-structures/3-red-black-tree-impl/red_black_tree.h:715-718` | going left ends at the node without left child, at the end of a left spine |
| `RedBlackTrees.RedBlackTree.Begin` | `m3-algorithms-and-data-structures/3-red-black-tree-impl/red_black_tree.h:98-102` | `begin()` designates the least node, or `end()` in an empty tree |
| `RedBlackTrees.RedBlackTree.GetSuccessor` | `m3-algorithms-and-data-structures/3-red-black-tree-impl/red_black_tree.h:865-889` | the in-order successor, and the sentinel exactly for a node that is less than no other; an iterator that carries its own node as sentinel does not move |
| `RedBlackTrees.RedBlackTree.Increment` | `m3-algorithms-and-data-structures/3-red-black-tree-impl/red_black_tree.h:824-827` | `++` reaches the in-order successor if and only if the iterator carries the tree's sentinel; an iterator from `Find` carries its own node and stays where it is |
| `RedBlackTrees.RedBlackTree.LeftmostOnRight` | `m3-algorithms-and-data-structures/3-red-black-tree-impl/red_black_tree.h:871-880` | with a right child: the leftmost node of that subtree is next, and the branch that returns a duplicate is never taken |
| `TreeSearch.RightChildIsGreater` | `m3-algorithms-and-data-structures/3-red-black-tree-impl/red_black_tree.h:872-875` | in every ordered tree a right child's key differs from its parent's, so the duplicate branch is dead |
| `RedBlackTrees.RedBlackTree.ClimbFromRight` | `m3-algorithms-and-data-structures/3-red-black-tree-impl/red_black_tree.h:882-888` | without a right child: the first ancestor reached from a left child is next |
| `RedBlackTrees.RedBlackTree.GetPredecessor` | `m3-algorithms-and-data-structures/3-red-black-tree-impl/red_black_tree.h:897-918` | the in-order predecessor, and the sentinel exactly for a node that no other node is less than |
| `RedBlackTrees.RedBlackTree.RightmostOnLeft` | `m3-algorithms-and-data-structures/3-red-black-tree-impl/red_black_tree.h:902-909` | with a left child: the rightmost node of that subtree is previous |
| `RedBlackTrees.RedBlackTree.ClimbFromLeft` | `m3-algorithms-and-data-structures/3-red-black-tree-impl/red_black_tree.h:911-917` | without a left child: the first ancestor reached from a right child is previous, and the sentinel if there is none (`PreviousIsUnique` leaves no other result) |
| `RedBlackTrees.RedBlackTree.StepBackUndoesStep` | `m3-algorithms-and-data-structures/3-red-black-tree-impl/red_black_tree.h:865-918` | between nodes of a valid tree, one is the successor of another if and only if that is the predecessor of the first: `--` undoes `++` |
| `TreeSearch.NextIsUnique` | `m3-algorithms-and-data-structures/3-red-black-tree-impl/red_black_tree.h:865-889` | a node has one successor only |
| `TreeSearch.PreviousIsUnique` | `m3-algorithms-and-data-structures/3-red-black-tree-impl/red_black_tree.h:897-918` | a node has one predecessor only, and the least node has the sentinel and nothing else |
| `RedBlackTrees.RedBlackTree.InOrder` | `m3-algorithms-and-data-structures/3-red-black-tree-impl/red_black_tree.h:379-383` | walking with `++` from `begin()` reaches `end()` after exactly `size()` steps, through every node once, in strictly increasing key order |
| `TreeSearch.VisitNext` | `m3-algorithms-and-data-structures/3-red-black-tree-impl/red_black_tree.h:865-889` | one step of the walk: what was visited is exactly what is smaller than the next node |
| `RedBlackTrees.RedBlackTree.Transplant` | `m3-algorithms-and-data-structures/3-red-black-tree-impl/red_black_tree.h:737-749` | the exact links that one subtree root replacing another writes, the sentinel's parent included |
| `TreeShape.Transplanted` | `m3-algorithms-and-data-structures/3-red-black-tree-impl/red_black_tree.h:737-749` | after these writes the replacing subtree stands in the place of the replaced one |
| `RedBlackTrees.RedBlackTree.SpliceOut` | `m3-algorithms-and-data-structures/3-red-black-tree-impl/red_black_tree.h:526-535` | unlinking a node with at most one child: the child takes its place, all other nodes keep theirs |
| `RedBlackTrees.RedBlackTree.Lift` | `m3-algorithms-and-data-structures/3-red-black-tree-impl/red_black_tree.h:543-550` | taking the successor out of the right subtree, whether it is the right child itself or deeper |
| `RedBlackTrees.RedBlackTree.TakeOver` | `m3-algorithms-and-data-structures/3-red-black-tree-impl/red_black_tree.h:552-559` | the successor takes over the node's place, left subtree and color |
| `RedBlackTrees.RedBlackTree.ReplaceBySuccessor` | `m3-algorithms-and-data-structures/3-red-black-tree-impl/red_black_tree.h:538-559` | the two-children case as a whole: the resulting shape, its nodes, and where the sentinel's parent points |
| `TreeShape.SuccessorNodes` | `m3-algorithms-and-data-structures/3-red-black-tree-impl/red_black_tree.h:538-559` | the two-children case loses exactly the removed node |
| `RedBlackRules.AfterUnlinking` | `m3-algorithms-and-data-structures/3-red-black-tree-impl/red_black_tree.h:526-535` | unlinking leaves all rules intact, or exactly one place one black short |
| `RedBlackRules.SuccessorRules` | `m3-algorithms-and-data-structures/3-red-black-tree-impl/red_black_tree.h:538-565` | the same for the two-children case, depending on the successor's color |
| `RedBlackTrees.RedBlackTree.Unlink` | `m3-algorithms-and-data-structures/3-red-black-tree-impl/red_black_tree.h:522-559` | in all three cases: the nodes are the old ones without the removed one, and either the rules hold or `x` is the place that is one black short |
| `RedBlackRules.RedSiblingTurned` | `m3-algorithms-and-data-structures/3-red-black-tree-impl/red_black_tree.h:578-583` | case 1 keeps the debt in place and gives a black sibling |
| `RedBlackRules.BlackNephews` | `m3-algorithms-and-data-structures/3-red-black-tree-impl/red_black_tree.h:585-587` | case 2 passes the debt up one level |
| `RedBlackRules.NearNephewTurned` | `m3-algorithms-and-data-structures/3-red-black-tree-impl/red_black_tree.h:589-595` | case 3 keeps the debt in place and gives a red far nephew |
| `RedBlackRules.FarNephewPays` | `m3-algorithms-and-data-structures/3-red-black-tree-impl/red_black_tree.h:597-600` | case 4 pays the debt |
| `RedBlackRules.RemovalDone` | `m3-algorithms-and-data-structures/3-red-black-tree-impl/red_black_tree.h:574-633` | when the loop ends, blackening `x` satisfies all rules |
| `RedBlackTrees.RedBlackTree.RemoveFixupLeft` | `m3-algorithms-and-data-structures/3-red-black-tree-impl/red_black_tree.h:575-601` | one round on the left: done within three rotations, or the debt moves strictly up without any |
| `RedBlackTrees.RedBlackTree.RemoveFixupRight` | `m3-algorithms-and-data-structures/3-red-black-tree-impl/red_black_tree.h:602-629` | the mirror image |
| `RedBlackTrees.RedBlackTree.RemoveFixup` | `m3-algorithms-and-data-structures/3-red-black-tree-impl/red_black_tree.h:573-634` | from any tree that is one black short somewhere, full validity is restored, and `RotateLeft` and `RotateRight` are called at most three times; the loop terminates |
| `RedBlackTrees.RedBlackTree.RemoveOne` | `m3-algorithms-and-data-structures/3-red-black-tree-impl/red_black_tree.h:517-568` | removing any node of any valid tree gives a valid tree whose nodes are the old ones minus exactly that node, with the size down by one, within three rotations; the sentinel is ignored |
| `RedBlackTrees.RedBlackTree.Erase` | `m3-algorithms-and-data-structures/3-red-black-tree-impl/red_black_tree.h:692-706` | returns the in-order successor as it was before; the other nodes are relinked, not copied; `end()` is a no-op |
| `RedBlackTrees.RedBlackTree.Remove` | `m3-algorithms-and-data-structures/3-red-black-tree-impl/red_black_tree.h:366-375` | removes the equivalent node and returns 1 if there was one; otherwise returns 0 and leaves every node, link and color as it was; the loop terminates |
| `RedBlackTrees.RedBlackTree.ClearRecursive` | `m3-algorithms-and-data-structures/3-red-black-tree-impl/red_black_tree.h:751-760` | every node of the subtree is freed exactly once, and none before the children that it is linked to |
| `RedBlackTrees.RedBlackTree.Clear` | `m3-algorithms-and-data-structures/3-red-black-tree-impl/red_black_tree.h:199-203` | every node is freed exactly once, each after its children, and the empty tree is valid, with size zero |
| `RedBlackTrees.InsertBeside` | `m3-algorithms-and-data-structures/3-red-black-tree-impl/red_black_tree.h:219-232` | inserting into one tree leaves another tree over the same sentinel valid and exactly as it was |
| `RedBlackTrees.RemoveBeside` | `m3-algorithms-and-data-structures/3-red-black-tree-impl/red_black_tree.h:219-232` | removing from one tree does so too, although it writes to the shared sentinel |
| `RedBlackTrees.CopyRecursive` | `m3-algorithms-and-data-structures/3-red-black-tree-impl/red_black_tree.h:762-783` | the copy of a subtree: new nodes, linked among themselves and to the given parent, with the same keys and colors at the same places |
| `RedBlackTrees.SameRules` | `m3-algorithms-and-data-structures/3-red-black-tree-impl/red_black_tree.h:70-73` | a tree with the same colors at the same places keeps the red-black rules and the size |
| `RedBlackTrees.SameOrder` | `m3-algorithms-and-data-structures/3-red-black-tree-impl/red_black_tree.h:70-73` | and, with the same keys, the search order |
| `RedBlackTrees.RedBlackTree.Copy` | `m3-algorithms-and-data-structures/3-red-black-tree-impl/red_black_tree.h:70-73` | the deep copy of any valid tree is a valid tree of the same form, and shares no node with the original, which is left alone |
| `RedBlackRules.FullToBlackHeight` | `m3-algorithms-and-data-structures/3-red-black-tree-impl/red_black_tree.h:238-255` | a tree of black height h has at least 2^h - 1 nodes, and is at most twice as high, up to a red root |
| `RedBlackTrees.RedBlackTree.HeightIsLogarithmic` | `m3-algorithms-and-data-structures/3-red-black-tree-impl/red_black_tree.h:238-255` | every valid tree satisfies 2^height <= (size + 1)^2: the promised logarithmic bound on searches |
| `RedBlackTrees.RedBlackTree.ValidMeans` | `m3-algorithms-and-data-structures/3-red-black-tree-impl/red_black_tree_test.cc:19-74` | what validity says of the fields of each node: parent and child links agree, smaller keys are left and greater keys right, the root is black and a red node has black children |
| `RedBlackTrees.RedBlackTree.EqualBlackDepths` | `m3-algorithms-and-data-structures/3-red-black-tree-impl/red_black_tree_test.cc:75-124` | all ways from the root down to an empty place meet the same number of black nodes |
| `TreeSearch.NumbersCompare` | `m3-algorithms-and-data-structures/3-red-black-tree-impl/red_black_tree.h:35-38` | every comparison by a number is admitted, with any number of keys that compare equal |
| `TreeSearch.EquivalentsCompareAlike` | `m3-algorithms-and-data-structures/3-red-black-tree-impl/red_black_tree.h:35-38` | keys neither of which is less are equivalent, and compare alike with every other key |
| `ReferenceCounts.StrongDropped` | `m1-shared-ptr/include/control_block.h:119-126` | dropping one of several strong handles keeps the counts exact and every block sound |
| `ReferenceCounts.LastStrongDropped` | `m1-shared-ptr/include/control_block.h:119-121` | dropping the last strong handle: the object starts dying, its deleter runs for the first time |
| `ReferenceCounts.MemberReleased` | `m1-shared-ptr/include/control_block.h:179-183` | a handle leaving a dying object keeps the counts exact |
| `ReferenceCounts.DestructionEnds` | `m1-shared-ptr/include/control_block.h:122-125` | after the object's destruction the block goes exactly when no weak handle is left, even if the dying object held it |
| `ReferenceCounts.WeakDropped` | `m1-shared-ptr/include/control_block.h:137-141` | dropping a weak handle frees the block exactly when nothing else needs it |
| `ReferenceCounts.StrongAdded` | `m1-shared-ptr/include/control_block.h:85-85` | a new strong handle to an object in use keeps the counts exact |
| `ReferenceCounts.WeakAdded` | `m1-shared-ptr/include/control_block.h:90-90` | a new weak handle keeps the counts exact |
| `ReferenceCounts.BlockMade` | `m1-shared-ptr/include/control_block.h:170-172` | a new block, its object owning handles that were outside before |
| `ReferenceCounts.HandleIsSafe` | `m1-shared-ptr/include/control_block.h:118-141` | in every state, mid-cascade included: a handle refers to a live block, and the deleter of its object has run once exactly if no strong handle is left |
| `ReferenceCounts.EvolvesOn` | `m1-shared-ptr/include/control_block.h:118-141` | what release cascades do composes: no object is revived, no running destruction is disturbed |
| `ReferenceCounts.InUseIffOwned` | `m1-shared-ptr/include/control_block.h:118-127` | an object is in use if and only if strong ownership leads to it from a handle outside or from a cycle |
| `ReferenceCounts.SelfHeldKept` | `m1-shared-ptr/include/control_block.h:118-141` | no step of a release breaks a path of objects that hold each other |
| `ReferenceCounts.SelfHeldBefore` | `m1-shared-ptr/include/control_block.h:118-141` | no release creates such a path |
| `ReferenceCounts.CyclesKept` | `m1-shared-ptr/include/control_block.h:118-141` | the cycles of strong ownership after any releases are those before them |
| `ReferenceCounts.OwnedOutlasts` | `m1-shared-ptr/include/control_block.h:118-141` | a way of strong ownership outlasts any releases, if it starts in a cycle or at a handle that is still outside afterwards; the object at its end stays in use |
| `ReferenceCounts.SurvivorsAreOwned` | `m1-shared-ptr/include/control_block.h:118-141` | after any releases, whatever is left outside: the objects still in use are exactly those to which strong ownership led, before the releases, from a handle left outside or from a cycle |
| `ReferenceCounts.SurvivorsAreCyclic` | `m1-shared-ptr/include/control_block.h:118-141` | once no handle is left outside, the objects still in use are exactly those to which a cycle led before the releases |
| `ReferenceCounts.NoLeakIffNoCycle` | `m1-shared-ptr/include/control_block.h:118-141` | releases that end with no handle outside free everything if and only if there was no cycle of strong ownership before them, whatever the weak handles form |
| `ReferenceCounts.LastIsNotOwned` | `m1-shared-ptr/include/control_block.h:119-121` | an object whose last strong handle is being released is not owned by anything else, so the object that an unfinished `Reset` still has to write to is not the one destroyed |
| `ReferenceCounts.OutlastsResetIffOwned` | `m1-shared-ptr/include/smart_shared_ptr.h:149-152` | `Reset` on a strong member, released before it is cleared: the object that has the member outlasts the release if and only if it is owned without that member, and then has all its other members |
| `ReferenceCounts.StillOwned` | `m1-shared-ptr/include/smart_shared_ptr.h:932-935` | clearing a weak or empty member never takes the last way to the object that has it |
| `ReferenceCounts.SpentIsMiscounted` | `m1-shared-ptr/include/smart_shared_ptr.h:149-152` | a strong member that has been released and not yet cleared belongs to no exact counts: a destructor that runs meanwhile releases it a second time |
| `ReferenceCounts.SelfOwnerReset` | `m1-shared-ptr/include/smart_shared_ptr.h:149-152` | the failing case: an object that owns itself alone resets that member; the counts are exact before, no way to the object is left without the member, and once its destruction has begun no handles outside could make the counts exact |
| `SharedPointers.Memory.AddRef` | `m1-shared-ptr/include/control_block.h:85-85` | adds one to the strong count and nothing else; the counts stay exact with one handle more |
| `SharedPointers.Memory.AddWeak` | `m1-shared-ptr/include/control_block.h:90-90` | the same for the weak count |
| `SharedPointers.Memory.Release` | `m1-shared-ptr/include/control_block.h:118-127` | one strong handle less; the whole cascade of destructions terminates with exact counts, from any state, also in the middle of other cascades and of a `Reset` whose member is not cleared yet; every object that dies and every block that goes has had its deleter run exactly once; survivors keep their members and what holds itself is not touched |
| `SharedPointers.Memory.Destroy` | `m1-shared-ptr/include/control_block.h:120-125` | the object is destroyed with its block kept alive, and then the block is freed exactly when its weak count is zero |
| `SharedPointers.Memory.ReleaseWeak` | `m1-shared-ptr/include/control_block.h:137-141` | one weak handle less; the block is freed exactly when both counts are zero and no destruction is running |
| `SharedPointers.Memory.DestroyObject` | `m1-shared-ptr/include/control_block.h:179-183` | all members of the object are released, whatever that sets off, and the block itself survives it |
| `SharedPointers.Memory.DestroyHandle` | `m1-shared-ptr/include/smart_shared_ptr.h:194-194` | the destructor of one smart pointer, strong, weak or empty, with the same guarantees |
| `SharedPointers.Memory.ValueIsSafe` | `m1-shared-ptr/include/smart_shared_ptr.h:963-963` | between operations, a smart pointer refers to a live block; its object has been deleted once or not at all, in line with the strong count |
| `SharedPointers.Memory.MakeShared` | `m1-shared-ptr/include/smart_shared_ptr.h:312-314` | a fresh block and a variable that owns it |
| `SharedPointers.Memory.DeletedIffUnused` | `m1-shared-ptr/include/control_block.h:118-127` | of all objects ever made, exactly those that are freed or no longer in use have been deleted, once |
| `SharedPointers.Memory.Share` | `m1-shared-ptr/include/smart_shared_ptr.h:126-130` | one count of one block goes up for a handle that is not empty, and nothing else changes |
| `SharedPointers.Memory.Discard` | `m1-shared-ptr/include/smart_shared_ptr.h:194-194` | the end of a temporary: exactly the objects owned from the variables or from a cycle survive, with their members; the dead have been deleted once |
| `SharedPointers.Memory.Copy` | `m1-shared-ptr/include/smart_shared_ptr.h:366-368` | a copy refers to what the source refers to, for both kinds of pointers; one count goes up and nothing else changes |
| `SharedPointers.Memory.Observe` | `m1-shared-ptr/include/smart_shared_ptr.h:848-850` | a weak pointer to the block of a shared pointer, or an empty one; one count goes up and nothing else changes |
| `SharedPointers.Memory.Lock` | `m1-shared-ptr/include/smart_shared_ptr.h:971-977` | a new owner exactly if the object has not been destroyed, an empty pointer otherwise; nothing but that count changes |
| `SharedPointers.Memory.Move` | `m1-shared-ptr/include/smart_shared_ptr.h:394-396` | the new pointer takes over and the source becomes empty; no count changes |
| `SharedPointers.Memory.Assign` | `m1-shared-ptr/include/smart_shared_ptr.h:416-419` | the target refers to what the source referred to; what it held before is released, with every consequence, after the exchange; exactly the objects owned after the exchange survive, with their members; the dead have been deleted once |
| `SharedPointers.Memory.Transfer` | `m1-shared-ptr/include/smart_shared_ptr.h:416-419` | the exchange of a move assignment, between variables, members or both |
| `SharedPointers.Memory.MoveAssign` | `m1-shared-ptr/include/smart_shared_ptr.h:416-419` | the same for a move, exact survivors included; the source becomes empty unless it is the target |
| `SharedPointers.Memory.Reset` | `m1-shared-ptr/include/smart_shared_ptr.h:149-152` | a variable, a weak or empty member, or a strong member of an object that is owned without it: the handle is released with every consequence, and then the pointer is cleared, in an object that is still there; exactly the objects owned without it survive, with their other members; the dead have been deleted once |
| `SharedPointers.Memory.ResetMember` | `m1-shared-ptr/include/smart_shared_ptr.h:149-152` | the member in the source's order, released and then cleared: the object that has it is in use when it is written to, and exactly the objects owned without it survive |
| `SharedPointers.Memory.Swap` | `m1-shared-ptr/include/smart_shared_ptr.h:214-214` | two pointers, variables or members, hold each other's former handles afterwards; no count changes |
| `SharedPointers.Memory.Drop` | `m1-shared-ptr/include/smart_shared_ptr.h:194-194` | a variable that goes out of scope releases what it holds; exactly the objects owned by the other variables or by a cycle survive, with their members; the dead have been deleted once, and no cycle of ownership comes or goes |
| `SharedPointers.Memory.DropAll` | `m1-shared-ptr/include/smart_shared_ptr.h:194-194` | when all variables are gone: everything is freed, and every object ever made deleted exactly once, if and only if no objects owned each other in a cycle before; in any case exactly the objects to which a cycle led survive |
| `SharedPointers.Memory.AllFreedIffNoCycle` | `m1-shared-ptr/include/smart_shared_ptr.h:194-194` | at any time when no variable holds anything: all blocks are freed if and only if no objects own each other in a cycle |
| `SharedPointers.SelfOwnerLeaks` | `m1-shared-ptr/include/smart_shared_ptr.h:416-419` | an object that owns itself is never deleted |
| `SharedPointers.WeakBackLink` | `m1-shared-ptr/tests/smart_shared_ptr_test.cc:667-697` | two nodes with a strong handle forth and a weak one back: both are deleted, once each, and nothing is left |
| `ThreadPool.InitialInv` | `m5-mt-async/thread_pool.cc:6-21` | as many workers as asked for, all about to look at the empty queue, satisfy the invariant before any has run |
| `ThreadPool.TicketsKept` | `m5-mt-async/thread_pool.cc:38-54` | every step of every thread keeps: each accepted task is in the queue, or taken once, in order, by one worker, or completed |
| `ThreadPool.WakeupsKept` | `m5-mt-async/include/thread_pool.h:20-53` | every step keeps: before a stop, awake workers and pending notifications number at least min(queue length, workers) |
| `ThreadPool.StopKept` | `m5-mt-async/thread_pool.cc:25-36` | every step keeps the order of a shutdown: a worker leaves only after the stop with an empty queue, and none sleeps once all were woken |
| `ThreadPool.InvKept` | `m5-mt-async/thread_pool.cc:25-54` | every step of every thread keeps the whole invariant |
| `ThreadPool.RunsKeepInv` | `m5-mt-async/thread_pool.cc:25-54` | in every interleaving of any length, every state satisfies the invariant |
| `ThreadPool.RunsGrow` | `m5-mt-async/thread_pool.cc:25-54` | a run can be continued by every step that is enabled at its end |
| `ThreadPool.TakenInOrder` | `m5-mt-async/thread_pool.cc:43-50` | a worker that takes a task takes it from a non-empty queue, and it is the oldest task not yet taken |
| `ThreadPool.ShutdownDrains` | `m5-mt-async/thread_pool.cc:25-36` | when `Shutdown` returns, the queue is empty, all workers have exited and every accepted task is completed |
| `ThreadPool.StuckMeansDone` | `m5-mt-async/include/thread_pool.h:20-53` | no reachable state with unfinished work is stuck; after a stop, none is stuck until all workers have exited |
| `ThreadPool.SomeoneWorks` | `m5-mt-async/include/thread_pool.h:20-53` | as long as an accepted task is unfinished and the client is idle, some worker is awake |
| `ThreadPool.InternalStepsEnd` | `m5-mt-async/thread_pool.cc:38-54` | every internal step uses up a bounded amount of work, so no schedule goes on for ever |
| `ThreadPool.WorkIsBounded` | `m5-mt-async/thread_pool.cc:38-54` | and that is at most two steps for each queued task, four for each worker, and two more |
| `ThreadPool.SpuriousWakeupsCost` | `m5-mt-async/include/thread_pool.h:48-53` | a spurious wakeup adds one unit of work |
| `ThreadPool.SpuriousIsCount` | `m5-mt-async/include/thread_pool.h:48-53` | the number of spurious wakeups in a run, which its length bound uses, counts exactly these steps |
| `ThreadPool.InternalRunsDrain` | `m5-mt-async/thread_pool.cc:25-54` | left alone by the client, every schedule with k spurious wakeups comes to rest within `Work + 2k` steps, with every accepted task completed |
| `WorkerPool.Create` | `m5-mt-async/thread_pool.cc:6-21` | zero workers are refused; otherwise the pool has exactly that many threads, all about to look at the queue |
| `WorkerPool.Pool.constructor` | `m5-mt-async/thread_pool.cc:12-16` | exactly the given number of threads, an empty queue, no task and no stop, and the invariant |
| `WorkerPool.Pool.WorkerThread` | `m5-mt-async/thread_pool.cc:41-53` | one round of a worker: the new state is that of the protocol step, and work was used up |
| `WorkerPool.Pool.Enqueue` | `m5-mt-async/include/thread_pool.h:104-127` | a stopped pool refuses; otherwise exactly this task is accepted and its future is handed out, with any interference by the workers before and after |
| `WorkerPool.Pool.WakeUp` | `m5-mt-async/include/thread_pool.h:48-53` | a spurious wakeup is that step of the protocol |
| `WorkerPool.Pool.Get` | `m5-mt-async/include/parallel_accumulate.h:42-42` | waiting for a future ends under any scheduling of the workers with any finite number of spurious wakeups, and delivers what its own task returns |
| `WorkerPool.Pool.NotifyOne` | `m5-mt-async/include/thread_pool.h:25-28` | one waiting worker is woken, if there is one |
| `WorkerPool.Pool.NotifyAll` | `m5-mt-async/include/thread_pool.h:48-53` | the stop wakes every waiting worker |
| `WorkerPool.Pool.JoinAllThreads` | `m5-mt-async/thread_pool.cc:30-36` | the joins terminate under any scheduling of the workers, and then every future is ready |
| `WorkerPool.Pool.Shutdown` | `m5-mt-async/thread_pool.cc:25-28` | terminates under any interference, with an empty queue, every accepted task completed and every worker gone |
| `ParallelAccumulation.AccumulateBlock` | `m5-mt-async/include/parallel_accumulate.h:11-15` | the left fold of a block from `T()` |
| `ParallelAccumulation.LastBlockIsNotEmpty` | `m5-mt-async/include/parallel_accumulate.h:28-28` | the blocks cover the sequence; all but the last are full, and the last has 1 to 25 elements |
| `ParallelAccumulation.ParallelAccumulate` | `m5-mt-async/include/parallel_accumulate.h:22-46` | on the pool itself, under every schedule: the call ends, with one task for each block of 25 but the last, and the result is determined by the input, and is the sequential fold from `init` for every restartable operation; a stopped pool refuses unless there is a single block |
| `ParallelAccumulation.BlockwiseIsFold` | `m5-mt-async/include/parallel_accumulate.h:22-46` | combining block sums in block order is the left fold, for every length and every restartable operation |
| `ParallelAccumulation.BlockAppended` | `m5-mt-async/include/parallel_accumulate.h:40-46` | for every operation, one more block behind full ones is summed from `T()` and added on the right to what the others gave |
| `ParallelAccumulation.FoldIffRestartable` | `m5-mt-async/include/parallel_accumulate.h:22-46` | the parallel sum equals the sequential one on all inputs if and only if starting from `T()` cannot be noticed after one element nor after two |
| `ParallelAccumulation.OnlyRestartable` | `m5-mt-async/include/parallel_accumulate.h:22-46` | if the block sums give the left fold on every input, the operation satisfies the two laws |
| `ParallelAccumulation.MonoidsAreRestartable` | `m5-mt-async/include/parallel_accumulate.h:11-15` | associativity with `T()` as identity suffices |
| `ParallelAccumulation.AdditionIsRestartable` | `m5-mt-async/include/parallel_accumulate.h:11-15` | addition of integers from zero is such an operation |
| `ParallelAccumulation.SubtractionDiffers` | `m5-mt-async/include/parallel_accumulate.h:11-15` | an operation and an input for which the two differ |
| `HashTables.DenotesOneMap` | `m3-algorithms-and-data-structures/4-hash-table-chaining/hash_table.h:29-34` | a table of buckets stands for one finite map only |
| `HashTables.Pushed` | `m3-algorithms-and-data-structures/4-hash-table-chaining/hash_table.h:92-93` | appending an absent entry to the bucket of its hash adds exactly that entry to the map |
| `HashTables.Updated` | `m3-algorithms-and-data-structures/4-hash-table-chaining/hash_table.h:89-90` | overwriting a value in place changes exactly that key of the map |
| `HashTables.Erased` | `m3-algorithms-and-data-structures/4-hash-table-chaining/hash_table.h:113-115` | erasing an entry from its chain removes exactly that key from the map |
| `HashTables.TruncationSuffices` | `m3-algorithms-and-data-structures/4-hash-table-chaining/hash_table.h:123-124` | the bucket count is (size + 1) / 0.75 rounded down; it is at least one bucket and always enough to restore the load bound |
| `HashTables.GrowthDoubles` | `m3-algorithms-and-data-structures/4-hash-table-chaining/hash_table.h:95-97` | the rehash after an insertion gives exactly twice the buckets |
| `HashTables.LoadFactorBound` | `m3-algorithms-and-data-structures/4-hash-table-chaining/hash_table.h:95-95` | the integer form of the trigger is what the comparison with 0.75 says |
| `HashTables.HashTable.constructor` | `m3-algorithms-and-data-structures/4-hash-table-chaining/hash_table.h:45-47` | an empty table of any capacity, zero included |
| `HashTables.HashTable.FindEntry` | `m3-algorithms-and-data-structures/4-hash-table-chaining/hash_table.h:139-159` | the position of the key in the bucket of its hash, or the end of that chain if the key is absent |
| `HashTables.HashTable.Insert` | `m3-algorithms-and-data-structures/4-hash-table-chaining/hash_table.h:85-99` | the map with the key set to the value; the exact new size, capacity and rehashing cost; the load bound holds again |
| `HashTables.HashTable.Find` | `m3-algorithms-and-data-structures/4-hash-table-chaining/hash_table.h:101-109` | what the map says about the key |
| `HashTables.HashTable.Remove` | `m3-algorithms-and-data-structures/4-hash-table-chaining/hash_table.h:111-119` | the map without the key, and whether it was there |
| `HashTables.HashTable.Redistribute` | `m3-algorithms-and-data-structures/4-hash-table-chaining/hash_table.h:126-133` | the nested loops move every entry to its new bucket, for any new capacity |
| `HashTables.HashTable.Rehash` | `m3-algorithms-and-data-structures/4-hash-table-chaining/hash_table.h:121-137` | the map and the size are unchanged, there are as many buckets as asked for, or else (size + 1) / 0.75 rounded down if that is more, and the load bound holds again |
| `HashTables.HashTable.GetStatistic` | `m3-algorithms-and-data-structures/4-hash-table-chaining/hash_table.h:161-172` | size divided by capacity, at most 0.75, and the longest chain; zero for a table without buckets |
| `HashTables.Run` | `m3-algorithms-and-data-structures/4-hash-table-chaining/hash_table.h:85-159` | for every hash function and every run from a positive capacity, all answers and the final contents are those of a finite map; without explicit resizing, rehashing moves at most 8/3 entries for each insertion and each entry that was there at the start |
| `HashTables.AnswersTell` | `m3-algorithms-and-data-structures/4-hash-table-chaining/hash_table.h:85-119` | in these answers, a lookup gives the value that its key has at that time, and a removal says whether the key was there |
| `HashTables.LastWriteCounts` | `m3-algorithms-and-data-structures/4-hash-table-chaining/hash_table.h:85-119` | at the end of a run a key has the value of the last insertion, unless a removal came later, and what it had before if it was never written |
| `HashTables.PutsIsCount` | `m3-algorithms-and-data-structures/4-hash-table-chaining/hash_table.h:85-102` | the number of insertions in the bound on moved entries counts exactly these operations |
| `Decimals.NumberOfDecimal` | `m1-net-log-filtering-system/include/details/ip_v4_address.h:118-118` | reading a canonical numeral gives the number back |
| `Decimals.DecimalOfNumber` | `m1-net-log-filtering-system/include/details/ip_v4_address.h:108-118` | a digit string without leading zero is the canonical numeral of its number |
| `Decimals.DigitOrder` | `m1-net-log-filtering-system/include/details/ip_v4_address.h:118-118` | the digits have increasing values, which below ten leaves one choice |
| `Decimals.NumeralOrder` | `m1-net-log-filtering-system/include/details/ip_v4_address.h:118-118` | of two numerals of equal length, the first different digit decides which number is smaller |
| `Decimals.LongerNumeral` | `m1-net-log-filtering-system/include/details/ip_v4_address.h:118-118` | a longer numeral without leading zero is a larger number |
| `Bits.AndBits` | `m1-net-log-filtering-system/include/details/filter.h:77-77` | the recursive conjunction is the bitwise one |
| `Bits.BitIsDigit` | `m1-net-log-filtering-system/include/details/filter.h:77-77` | a bit is the binary digit of its power of two |
| `Bits.OrBits` | `m1-net-log-filtering-system/include/details/ip_v4_address.h:32-33` | the recursive disjunction is the bitwise one |
| `Addresses.PackIsPacked` | `m1-net-log-filtering-system/include/details/ip_v4_address.h:31-33` | shifting and joining four bytes gives the big-endian number, with nothing lost |
| `Addresses.OctetsOfPacked` | `m1-net-log-filtering-system/include/details/ip_v4_address.h:31-33` | the four bytes can be read back |
| `Addresses.FromBytes` | `m1-net-log-filtering-system/include/details/ip_v4_address.h:145-152` | accepted exactly if all four are at most 255, and then they are the digits of the address in base 256, the first the highest |
| `Addresses.SymbolRejected` | `m1-net-log-filtering-system/include/details/ip_v4_address.h:154-157` | a text with any other symbol is no address |
| `Addresses.OctetRejected` | `m1-net-log-filtering-system/include/details/ip_v4_address.h:103-134` | whenever a check on one octet fails, the text is no canonical address |
| `Addresses.OctetAccepted` | `m1-net-log-filtering-system/include/details/ip_v4_address.h:124-134` | one round of the loop: what is left must be the notation of the remaining octets |
| `Addresses.FromString` | `m1-net-log-filtering-system/include/details/ip_v4_address.h:90-143` | accepts exactly `IPv4address` of section 3.2.2 of RFC 3986; the address is the number whose digits in base 256 are the four octets of the text |
| `Addresses.ValueOfText` | `m1-net-log-filtering-system/include/details/ip_v4_address.h:90-143` | what a text of four octets is worth as a number |
| `Addresses.GrammarIsPrint` | `m1-net-log-filtering-system/include/details/ip_v4_address.h:90-143` | the grammar of RFC 3986 describes exactly the canonical notations of the 32-bit addresses |
| `Addresses.ParseOfPrint` | `m1-net-log-filtering-system/include/details/ip_v4_address.h:90-143` | parsing the canonical notation of any 32-bit address gives the address back |
| `Addresses.PrintOfParse` | `m1-net-log-filtering-system/include/details/ip_v4_address.h:90-143` | a text is accepted if and only if the grammar derives it, and printing the result gives the text back |
| `Filters.MaskValue` | `m1-net-log-filtering-system/include/details/filter.h:199-201` | the mask is 2^32 - 2^(32 - prefix), for every prefix from 0 to 32 |
| `Bits.AndClears` | `m1-net-log-filtering-system/include/details/filter.h:77-77` | conjunction with such a mask clears exactly the last bits |
| `Filters.SubnetIsRange` | `m1-net-log-filtering-system/include/details/filter.h:76-78` | for every address, prefix and ip: the network address is the multiple of 2^(32 - prefix) just below, and the mask test holds if and only if the ip is one of the 2^(32 - prefix) addresses from there on, so it agrees with the range filter on these bounds |
| `Filters.RangeMatches` | `m1-net-log-filtering-system/include/details/filter.h:119-119` | a range filter matches exactly the addresses between its two bounds |
| `Filters.PrefixTexts` | `m1-net-log-filtering-system/include/details/filter.h:223-232` | exactly which texts are accepted as prefix lengths: digits with any leading zeros, and a minus sign before zero |
| `Filters.CreateSubnet` | `m1-net-log-filtering-system/include/details/filter.h:211-238` | accepted exactly if the text is the notation of an address, a slash and an accepted prefix text, with the subnet of these two |
| `Filters.SubnetTexts` | `m1-net-log-filtering-system/include/details/filter.h:211-238` | a text is accepted if and only if it is a canonical address, a slash and a prefix length, and it stands for that subnet |
| `Filters.CanonicalSubnetText` | `m1-net-log-filtering-system/include/details/filter.h:211-238` | the canonical text of every subnet is accepted as that subnet |
| `Filters.CreateRange` | `m1-net-log-filtering-system/include/details/filter.h:240-261` | accepted exactly if the text is two canonical addresses in order with a dash between them, and then the range is theirs |
| `Filters.CreateRangeOf` | `m1-net-log-filtering-system/include/details/filter.h:263-276` | the same from two texts |
| `Filters.CompositeFilter.Add` | `m1-net-log-filtering-system/include/details/filter.h:278-285` | appends, up to 20 filters, and the accepted addresses become exactly the union; a full composite refuses |
| `Filters.CompositeFilter.Accepts` | `m1-net-log-filtering-system/include/details/filter.h:287-295` | true if and only if some filter of the composite matches the address |
| `Filters.MatchesOfUnion` | `m1-net-log-filtering-system/include/details/filter.h:287-295` | no filters match nothing, and the filters of two lists match what either list does |
| `Streams.ParseIPFromLine` | `m1-net-log-filtering-system/include/details/stream_processor.h:113-122` | the address in front of the first space, if that is one |
| `Streams.AddressedLines` | `m1-net-log-filtering-system/include/details/stream_processor.h:113-122` | a line has an address if and only if it is the canonical notation of one, a space and anything |
| `Streams.SelectKeepsMatches` | `m1-net-log-filtering-system/include/details/stream_processor.h:94-100` | selection keeps each matching line as often as it occurs and nothing else |
| `Streams.SelectedMeans` | `m1-net-log-filtering-system/include/details/stream_processor.h:97-101` | a line is selected if and only if it starts with the notation of an address that some filter matches, and a space |
| `Streams.SelectIsFilter` | `m1-net-log-filtering-system/include/details/stream_processor.h:94-101` | what comes through is exactly the lines of the log that start so |
| `Streams.SelectPush` | `m1-net-log-filtering-system/include/details/stream_processor.h:94-101` | the selected lines stand in the order of the log |
| `Streams.StreamProcessor.FlushBuffer` | `m1-net-log-filtering-system/include/details/stream_processor.h:125-135` | the buffered lines are written in order, each with a newline, and the buffer is empty |
| `Streams.StreamProcessor.KeepIfMatching` | `m1-net-log-filtering-system/include/details/stream_processor.h:97-101` | a line that starts with an address that some filter of the composite matches goes to the end of the buffer, any other line leaves it as it was |
| `Streams.StreamProcessor.Process` | `m1-net-log-filtering-system/include/details/stream_processor.h:88-111` | for every input and every batch size: exactly the matching lines are written, in order, each with a newline; every flush but the last writes exactly a batch, of one line for a size of zero, and the last one at least a line |
| `Lines.LinesOfUnlines` | `m6-network/src/common/helpers.cc:28-29` | splitting joined lines gives the lines back |
| `Lines.UnlinesOfLines` | `m6-network/src/common/helpers.cc:28-29` | joining the lines of a text gives the text back, with a newline at the end if it was missing |
| `Lines.ChunkSizes` | `m6-network/src/common/helpers.cc:32-41` | all chunks but the last have exactly n elements, the last has 1 to n |
| `Lines.ChunkAt` | `m6-network/src/common/helpers.cc:32-41` | chunk number i holds the elements from i n on |
| `Lines.ChunksLoseNothing` | `m6-network/src/common/helpers.cc:32-43` | the chunks concatenate back to the whole, for every size |
| `Helpers.SplitByLines` | `m6-network/src/common/helpers.cc:17-44` | the texts of the chunks of n lines, for every text and every n; for zero the whole text is one chunk |
| `Helpers.SplitLosesNothing` | `m6-network/src/common/helpers.cc:17-44` | the chunks of a text concatenate back to it, up to a missing newline at the end |
| `Helpers.SplitSizes` | `m6-network/src/common/helpers.cc:17-44` | for a positive n every chunk but the last has n lines, and the last 1 to n |
| `Helpers.GetLogMessages` | `m6-network/src/common/helpers.cc:46-56` | one message for each payload, in order, with the source and the time it was made |
| `Helpers.Send` | `m6-network/src/sender/sender_client.cc:49-61` | from a log to the messages, all from `ipv4_filter` and with one reading of the clock each: the payloads are the matching lines, in order, in groups of three, and concatenate to all of them |

## Left out

- RedBlackTrees.CopyRecursive: assigns both children after copying them, and has no clean-up after a failed allocation.
- Tree moves and swaps, copy assignment, and the output formatting of `Print`; `InOrder` is the traversal that `Print` makes.
- RedBlackTrees.RedBlackTree.GetPredecessor: has no separate `GetMaximum`, because nothing calls the source's.
- Node memory: `delete` is dropping the node from the tree's footprint; that its memory is not touched afterwards is left to the footprint of `RemoveOne`, which no longer contains it.
- Disabled duplicate keys: the code behind `#if 0` is not part of the model.
- SharedPointers.Memory.MakeShared: has no failing allocation and no custom deleter; the deleter is the counter `deleterRuns` together with the release of the object's members.
- SharedPointers.Memory.Reset: for a strong member, requires that the object that has it is owned without it. The source does not ask for this, and its order, release first and clear afterwards, is wrong otherwise: `OutlastsResetIffOwned` gives the exact condition, `SelfOwnerReset` the smallest failing case. Assigning an empty pointer instead, which exchanges first, needs no condition (`MoveAssign`).
- Shared pointers otherwise: arrays, pointer conversions and casts, comparison operators, `Reset` to a new raw pointer, and the stored object pointer beside the control block.
- Unsigned widths: counts, sizes, capacities and hash values are unbounded; only addresses and their arithmetic have 32 bits.
- Thread pool: mutexes and memory ordering below the critical sections, failing thread creation, several clients, and tasks that enqueue or wait for other tasks. An exception of a task is a value in its future.
- Hash table: iteration order inside buckets after a rehash, floating-point rounding, and formatting in `StatisticPrint`.
- Filter configuration: `CreateFilter` and its exceptions, whose branches only choose between `CreateSubnet` and `CreateRange`.
- Helpers.GetLogMessages: takes the clock as a parameter; the format of the time is not modelled.
- Streams.StreamProcessor.Process: takes the input as one text, so a stream that fails in the middle is not modelled, and filters of one kind alone are composites of one.
- Database, gRPC transport, console, environment, calculator, student list, benchmarks and generators: plumbing around libraries, or easy.
