# Fleet: a verified model of a red-black tree of Ships

The Fleet stores Ships in a red-black binary search tree. Each Ship has:
- an integer id in the closed range [MINID, MAXID] = [10000, 99999];
- a SHIPTYPE (CARGO, TELESCOPE, COMMUNICATOR, FUELCARRIER, ROBOCARRIER);
- a STATE (ALIVE, LOST);
- a COLOR (RED, BLACK, and DOUBLEBLACK, a transient colour used while removing).

The model covers the Ship record (fleet.h), the tree engine (fleet.cpp) and the oracles its tests judge a tree by (mytest.cpp). It proves that:
- insert, remove, setState and removeLost keep a valid red-black search tree with a BLACK root;
- each of them changes the stored map from id to (type, state) exactly as intended.

Modules, one per concern:

- `Ships` (ships.dfy): the enums, the id bounds, and the Ship node as the datatype `Tree = Leaf | Node(color, id, kind, state, left, right)`. A null child is `Leaf`. Ownership in the source is strictly hierarchical, with no parent pointers.
- `TreeSpec` (tree_spec.dfy): the abstractions every contract is stated in:
  - `InOrder`, the sequence `recursList` visits;
  - `ContentsOf`, the stored map;
  - search order, black height (BLACK weighs 1, DOUBLEBLACK 2);
  - the red-black predicates.
- `Rotations` (rotations.dfy): `lRotation`, `rRotation`, `recolor`.
- `Insertion` (insertion.dfy): `recursInsert` and `insertRebalance`. The order, contents and colour proofs are here.
- `Deletion` (deletion.dfy): `findLargest`, `replaceWithLargest`, `removeRebalance` and `recursRemove`. The order and contents proofs are here.
  - `getParent` followed by nulling the found slot is `UnlinkExtreme`. It walks the `left` spine of the rebalanced subtree. The rotations of `removeRebalance` never rewire the parent's `left` slot, and `getParent` descends left on `>=` (needed for the duplicate id `replaceWithLargest` leaves behind). Together these mean it finds the doomed leaf where the model unlinks it.
- `DeletionInvariants` (deletion_invariants.dfy): the colour proofs of removal. These cover each case of `removeRebalance`, the DOUBLEBLACK that may rise to the parent, and the four branches of `remove`.
- `Fleets` (fleet.dfy): the `Fleet` class. It holds a `root: Tree` field and has the public operations as methods. Their contracts state the class invariant `Valid()` and the new `Contents()` in terms of the old.
- `Tester` (tester.dfy): `recursBalanced`, `unbalanced`, `copyShip`, `copyFleet`, `shipEqual`, `fleetEqual`, `inArray`.

Functions stand in for pointer surgery. The C++ helpers rewire `m_left`/`m_right` in place and hand back "the root of the current subtree" through a `Ship*&` slot. The model's helpers are functions that return that new subtree root, and the methods of `Fleet` reassign `root`.

The deletion algorithm departs from the textbook in the "sibling has a RED right child" case:
- when the DOUBLEBLACK child is on the left, it is a single rotation, and the parent keeps its colour;
- when the child is on the right, it is a double rotation;
- a `recolor` is applied when the parent and both nephews were RED.

This variant is proved to keep black heights and to leave no RED-RED edge (`DeletionInvariants.FixBlackSiblingRestores`).

Two places where the model follows what the code does rather than its comments or its surface reading:
- `recolor` makes the Ship RED and its children BLACK (fleet.cpp:418-423). Its header comment says the opposite.
- `recursInsert` returns a child slot, and the caller at fleet.cpp:109 stores it into the `nextLeft` child of `possibility`:
  - in the base case (fleet.cpp:101-104) the callee returns `newShip`, and this store is what attaches the new Ship to its parent's null slot. `Insertion.RecursInsert` does this with `SetChild(a, left, n)`;
  - after a rebalance the callee has already rewritten `possibility` through its `Ship*&` parameter, and under C++17 sequencing the store writes that new subtree's child back into itself, so it has no effect. `Insertion.RecursInsert` returns the whole rebalanced subtree in place of `aShip`, which is what the `Ship*&` write at fleet.cpp:110 does.

## Model

| member | source | states |
|---|---|---|
| Ships.NewShip | fleet.h:33-39 | a new Ship is RED, childless, with the given id, type and state (defaults 0, CARGO, ALIVE) |
| Ships.StateName | fleet.h:42-50 | getStateStr: every STATE value has a non-empty name, never the "UNKNOWN" default |
| Ships.TypeName | fleet.h:52-63 | getTypeStr: every SHIPTYPE value has a non-empty name, never the "UNKNOWN" default |
| Ships.ColorName | fleet.h:65-74 | getColorStr: every COLOR value has a non-empty name, never the "UNKNOWN" default |
| Ships.NamesAreDistinct | fleet.h:42-74 | each STATE, SHIPTYPE and COLOR value has its own name, and no value maps to "UNKNOWN" |
| Ships.SetId | fleet.h:77 | only the id changes; restoring the old id gives back the old Ship |
| Ships.SetState | fleet.h:78 | only the state changes; restoring it gives back the old Ship |
| Ships.SetType | fleet.h:79 | only the type changes; restoring it gives back the old Ship |
| Ships.SetColor | fleet.h:80 | only the colour changes; restoring it gives back the old Ship |
| Ships.SetLeft | fleet.h:81 | only the left link changes; restoring it gives back the old Ship |
| Ships.SetRight | fleet.h:82 | only the right link changes; restoring it gives back the old Ship |
| TreeSpec.SetChild | fleet.cpp:99 | writing the `left`-selected child slot changes that child only, and keeps the Ship's data and colour |
| TreeSpec.InOrderSize | fleet.cpp:467-478 | the visit order of `recursList` (left subtree, Ship, right subtree) lists one entry per Ship of the subtree |
| TreeSpec.ContentsInOrder | fleet.cpp:467-478 | the stored map is the map of the in-order sequence `recursList` visits, and its keys are that sequence's ids |
| TreeSpec.SearchStep | fleet.cpp:544-551 | in a search tree, an id other than the Ship's own is stored exactly when it is stored in the subtree the search steps into |
| TreeSpec.BlackenRoot | fleet.cpp:85-86 | painting a red-black subtree's root BLACK gives a red-black tree with a non-RED root and the same in-order sequence |
| TreeSpec.ReplaceChildOrdered | fleet.cpp:108-110 | replacing a child of an ordered Ship by an ordered subtree whose ids lie on that child's side keeps the tree ordered |
| Rotations.RotateLeft | fleet.cpp:393-399 | the right child becomes the subtree root with the old root as its left child; the three moved subtrees are relinked unchanged, the two rotated Ships keep their colours, and the in-order sequence and size are kept |
| Rotations.RotateRight | fleet.cpp:406-412 | the left child becomes the subtree root with the old root as its right child; the three moved subtrees are relinked unchanged, the two rotated Ships keep their colours, and the in-order sequence and size are kept |
| Rotations.Recolor | fleet.cpp:418-423 | the Ship becomes RED and both children BLACK; nothing else changes and the in-order sequence is kept |
| Insertion.PlainInsertContents | fleet.cpp:97-113 | plain search-tree insertion of a new id keeps the order and adds exactly that id with its type and state |
| Insertion.InsertRebalance | fleet.cpp:120-151 | keeps the in-order sequence. Unless the grandparent is BLACK, the parent RED and the child RED, it returns the grandparent unchanged. With a RED uncle only colours change: the grandparent turns RED and its children BLACK. Otherwise the new root is BLACK, with the former grandparent as a RED child |
| Insertion.InsertRebalanceRepairs | fleet.cpp:120-151 | below a BLACK grandparent, with at most one RED-RED edge at the parent, the result is red-black with the same black height |
| Insertion.SingleRotationRepairs | fleet.cpp:137-147 | the single-rotation case of InsertRebalanceRepairs |
| Insertion.DoubleRotationRepairs | fleet.cpp:140-147 | the double-rotation case of InsertRebalanceRepairs |
| Insertion.RecursInsert | fleet.cpp:97-113 | the returned subtree has the in-order sequence of the subtree with the new Ship inserted below the `left`-selected child |
| Insertion.RecursInsertKeepsColors | fleet.cpp:97-113 | keeps the black height. The only RED-RED edge left is at the top of the returned subtree, and only when its root was already RED |
| Insertion.InsertBelowRoot | fleet.cpp:76-86 | inserting a new id below the root and painting the root BLACK gives a valid tree holding the old map plus the new id |
| Deletion.FindLargest | fleet.cpp:266-278 | returns the Ship with no right child whose entry is the last of the subtree's in-order sequence |
| Deletion.ReplaceWithLargest | fleet.cpp:253-260 | the Ship takes the id, type and state of the last entry of its left subtree, and keeps its colour and children |
| Deletion.FixBlackSibling | fleet.cpp:304-363 | cases 2 to 4 of removeRebalance, with `x` as the DOUBLEBLACK child's repaid value. The in-order sequence is kept. With a RED nephew, the repaid child stays below the old parent. Otherwise the sibling turns RED and the parent becomes DOUBLEBLACK if it was BLACK, else BLACK |
| Deletion.RemoveRebalance | fleet.cpp:285-368 | keeps the in-order sequence and returns the parent untouched unless the `left`-side child is DOUBLEBLACK. In that case the `left`-side child of the result is still a Ship |
| Deletion.UnlinkExtreme | fleet.cpp:374-386 | finding the doomed leaf's parent and nulling its slot keeps the subtree root's data |
| Deletion.FixBlackSiblingUnlink | fleet.cpp:225-231 | unlinking after a BLACK-sibling case equals running that case on an empty slot |
| Deletion.RemoveRebalanceUnlink | fleet.cpp:225-231 | after rebalancing, the doomed leaf is still in the parent's `left`-selected spine, and unlinking it leaves the in-order sequence of the parent without it |
| Deletion.RecursRemove | fleet.cpp:197-246 | returns a subtree that replaces `aShip` |
| Deletion.LargestBelow | fleet.cpp:210-214 | the id `replaceWithLargest` copies up is still stored in the ordered left subtree, so the descent that follows finds it there |
| Deletion.RecursRemoveInOrder | fleet.cpp:197-246 | the returned subtree's in-order sequence is the old one with `id` erased from the `left`-selected child |
| Deletion.RemoveBelowInOrder | fleet.cpp:244-245 | when `id` lies below the child, descending on the side the comparison picks and rebalancing erases exactly `id` |
| Deletion.RemoveWithLeftInOrder | fleet.cpp:210-214 | a Ship with a left child takes its predecessor's data, and removing the predecessor below erases exactly the Ship's id |
| Deletion.RemoveWithRightInOrder | fleet.cpp:215-221 | a Ship with only a right child moves it to the left, takes its data, and removing it below erases exactly the Ship's id |
| DeletionInvariants.RightNephewLeft | fleet.cpp:311-315 | RED right nephew, child on the left: the subtree is restored with the sibling's black height plus the parent's weight |
| DeletionInvariants.RightNephewRight | fleet.cpp:316-323 | RED right nephew, child on the right (double rotation): same restoration |
| DeletionInvariants.LeftNephewLeft | fleet.cpp:335-341 | RED left nephew, child on the left (double rotation): same restoration |
| DeletionInvariants.LeftNephewRight | fleet.cpp:343-347 | RED left nephew, child on the right: same restoration |
| DeletionInvariants.NoRedNephew | fleet.cpp:349-361 | no RED nephew: the sibling turns RED, and the missing black is repaid by a RED parent or passed up as a DOUBLEBLACK parent |
| DeletionInvariants.FixBlackSiblingRestores | fleet.cpp:304-363 | every BLACK-sibling case leaves a settled subtree. Its black height is the sibling's plus the parent's weight. It is DOUBLEBLACK only under a BLACK parent and RED only under a RED parent |
| DeletionInvariants.RemoveRebalanceRestores | fleet.cpp:285-368 | with a DOUBLEBLACK child one black short, removeRebalance, including the RED-sibling case and the doomed-leaf unlink, returns a settled subtree whose missing black is restored or lifted to the parent |
| DeletionInvariants.LoneChildIsRedLeaf | fleet.cpp:214-219 | in a red-black tree, a Ship whose only child is on the right has a RED leaf there |
| DeletionInvariants.RecursRemoveKeepsColors | fleet.cpp:197-246 | recursRemove keeps the black height and returns a settled subtree. Its root is DOUBLEBLACK only where `aShip` was BLACK and RED only where `aShip` was RED |
| DeletionInvariants.BelowKeepsColors | fleet.cpp:244-245 | the descending case of RecursRemoveKeepsColors |
| DeletionInvariants.WithLeftKeepsColors | fleet.cpp:210-214 | the left-child case of RecursRemoveKeepsColors |
| DeletionInvariants.WithRightKeepsColors | fleet.cpp:215-221 | the right-child-only case of RecursRemoveKeepsColors |
| DeletionInvariants.LeafKeepsColors | fleet.cpp:222-242 | the leaf cases of RecursRemoveKeepsColors: a RED leaf is dropped, a BLACK leaf is rebalanced away as DOUBLEBLACK and unlinked |
| DeletionInvariants.RebalanceAfterRemoval | fleet.cpp:244-245 | once the child slot holds a settled subtree of the old child's black height, removeRebalance returns a settled subtree of the parent's black height, DOUBLEBLACK only under a BLACK parent and RED only under a RED one |
| DeletionInvariants.RemoveBelowRoot | fleet.cpp:162-165 | removing an id below the root and painting the root BLACK gives a valid tree holding the old map without that id |
| DeletionInvariants.RemoveRootWithLeft | fleet.cpp:167-170 | removing a root that has a left child, through its predecessor, gives a valid tree holding the old map without the root's id |
| DeletionInvariants.RemoveRootWithRightOnly | fleet.cpp:172-177 | a root with only a right child is replaced by that child painted BLACK, giving a valid tree without the root's id |
| DeletionInvariants.RemoveFromRoot | fleet.cpp:158-189 | for a stored id, whichever branch of remove applies gives a valid tree holding the old map without that id |
| Fleets.FirstLost | fleet.cpp:516-534 | the Ship recursRemoveLost finds is a stored LOST Ship, and none is found exactly when every Ship is ALIVE |
| Fleets.FirstLostStored | fleet.cpp:516-534 | the Ship found is in the stored map with state LOST; when none is found, every stored state is ALIVE |
| Fleets.WithState | fleet.cpp:486-500 | the write changes state fields only: with every state forgotten the tree is the same (links, ids, types, colours), and so black heights and the colour invariants are kept |
| Fleets.WithStateInOrder | fleet.cpp:486-500 | in a search tree the write relabels exactly the entries with the id and keeps the order |
| Fleets.WithStateContents | fleet.cpp:486-500 | in a search tree the write changes only the state stored for the id, if present |
| Fleets.Fleet.constructor | fleet.cpp:19 | a new fleet is valid and empty |
| Fleets.Fleet.Clear | fleet.cpp:51-55 | afterwards the fleet is valid and empty |
| Fleets.Fleet.FindShip | fleet.cpp:541-554 | true exactly when the id is stored; changes nothing |
| Fleets.Fleet.Insert | fleet.cpp:62-88 | keeps the fleet valid. A valid, new id adds that id with its type and state. Any other id leaves the tree identical |
| Fleets.Fleet.Remove | fleet.cpp:158-189 | keeps the fleet valid and removes exactly the id. An absent id leaves the tree identical |
| Fleets.Fleet.SetState | fleet.cpp:486-500 | true exactly when the id is stored, and then only that id's state changes in the map; the tree keeps its links, ids, types and colours. Otherwise the tree is identical |
| Fleets.Fleet.RemoveOneLost | fleet.cpp:516-534 | removes the found LOST Ship when there is one, otherwise changes nothing; keeps the fleet valid |
| Fleets.Fleet.RemoveLost | fleet.cpp:506-509 | terminates, keeps exactly the ALIVE Ships with their data, and leaves a fleet without LOST Ships identical |
| Tester.RecursBalanced | mytest.cpp:574-613 | recursBalanced as written returns either -1 or the subtree's black height |
| Tester.RecursBalancedMeaning | mytest.cpp:574-613 | recursBalanced is non-negative exactly on locally ordered red-black trees, and there it is the black height; otherwise it is -1 |
| Tester.OrderedIsLocallyOrdered | mytest.cpp:590-597 | search-tree order implies the parent-child order recursBalanced checks |
| Tester.Unbalanced | mytest.cpp:564-567 | every valid fleet passes, and a passing fleet is red-black and locally ordered |
| Tester.RecursBalancedAcceptsUnordered | mytest.cpp:590-597 | recursBalanced accepts a tree that is not a search tree |
| Tester.BalancedWithin | mytest.cpp:574-613 | the corrected recursBalanced, with the id range its ancestors allow, returns either -1 or the black height |
| Tester.BalancedWithinMeaning | mytest.cpp:574-613 | the corrected check is non-negative exactly on red-black search trees within the id range, and there it is the black height |
| Tester.UnbalancedSearch | mytest.cpp:564-567 | the corrected unbalanced holds exactly when the fleet is not an ordered red-black tree of ids in [MINID, MAXID] |
| Tester.CopyShip | mytest.cpp:541-557 | the copy is the same tree: shape, ids, types, states and colours |
| Tester.CopyFleet | mytest.cpp:530-535 | a new Fleet holding the same tree |
| Tester.ShipEqualAsWritten | mytest.cpp:630-659 | shipEqual as written: trees it calls equal have equal left spines |
| Tester.ShipEqualAsWrittenSelf | mytest.cpp:646 | the as-written comparison of a tree with itself always succeeds |
| Tester.ShipEqualAsWrittenMeaning | mytest.cpp:630-659 | shipEqual as written holds exactly when the two left spines agree |
| Tester.ShipEqualMissesRight | mytest.cpp:646 | two different trees that shipEqual as written calls equal |
| Tester.ShipEqual | mytest.cpp:630-659 | corrected shipEqual holds exactly when the trees are equal |
| Tester.FleetEqualAsWritten | mytest.cpp:620-623 | fleetEqual as written holds exactly when the two roots have equal left spines; equal trees always pass |
| Tester.FleetEqualMissesRight | mytest.cpp:620-623 | two fleets with different trees that fleetEqual as written calls equal and the corrected fleetEqual tells apart |
| Tester.FleetEqual | mytest.cpp:620-623 | fleetEqual with shipEqual corrected: holds exactly when the two fleets hold equal trees, which then store equal maps |
| Tester.InArray | mytest.cpp:511-524 | true exactly when the item occurs among the first `size` elements |

## Left out

- Printing: `dumpTree`, `dump`, `listShips` and `recursList` (fleet.cpp:429-478) write to `cout`. Only the in-order sequence they visit is modelled, as `TreeSpec.InOrder`.
- Memory management: `deleteShip`, the destructor, `delete` of removed Ships, and the destructor-plus-placement-new in `clear` only free memory. `clear` is modelled as `root := Leaf`.
- Pointer identity and aliasing. Ships are values, and the helpers return new subtrees instead of rewiring shared nodes. So the model does not capture that `copyShip` allocates distinct nodes, or that `getParent` compares pointers.
- Fleets.Fleet.SetState: the write through `iter` is modelled by `WithState`, which rebuilds the search path. The contract states the effect on the tree, not the in-place update.
- Deletion.RemoveRebalance: when the sibling is null, the source dereferences it. This cannot happen in a red-black tree (`DeletionInvariants.RemoveRebalanceRestores` requires one), and the function then returns the parent unchanged.
- Deletion.RecursRemove: its own contract states only that a subtree is returned. Its order, contents and colour properties are the lemmas `RecursRemoveInOrder` and `RecursRemoveKeepsColors`.
- The C++17 evaluation order of the assignment at fleet.cpp:109 is not modelled; only its effect is.
- Integer width: ids and black heights are unbounded integers. The id range check keeps ids far from the 32-bit limits, and a black height cannot reach them.
- Test drivers: the test cases (`insertTest`, `removeTest`, `setStateTest`, `removeLostTest`, `findShipTest`), the timing tests (which use `clock()`, `rand()` and floating point), `Tester::result` and `main` (mytest.cpp:71-504, 661-836) are not part of this model. The properties they check are the contracts of the `Fleet` methods.
- The write to `ships[1]` of a one-element array at mytest.cpp:704 is undefined behaviour and is not modelled.
- `getParent`'s unbounded search loop is not modelled as a loop: `Deletion.UnlinkExtreme` unlinks the leaf it would find.
- O(log n) running time is not stated.

## Findings

| source | as written | input that shows it | evidently intended | confidence | as-written member | corrected member |
|---|---|---|---|---|---|---|
| mytest.cpp:646 | `shipEqual(rhs->m_right, rhs->m_right)` compares the right subtree of `rhs` with itself, so right subtrees are never compared | a BLACK Ship 50000 with no children, against the same Ship with a RED right child 60000: reported equal | `shipEqual(lhs->m_right, rhs->m_right)`, deep equality | high, not executed | Tester.ShipEqualMissesRight | Tester.ShipEqual |
| mytest.cpp:620-623 | consequence of mytest.cpp:646, not a second defect: `fleetEqual` itself is correct, but it returns the as-written `shipEqual` of the two roots, so two fleets that differ only in a right subtree are reported equal | a fleet whose root is BLACK 50000 with no children, against one whose root is the same Ship with a RED right child 60000: reported equal | deep equality of the two trees | high, not executed | Tester.FleetEqualMissesRight | Tester.FleetEqual |
| mytest.cpp:590-597 | `recursBalanced` compares each Ship only with its own children, so `unbalanced` ("checks if a passed Fleet is a BST") passes trees that are not search trees | BLACK 50000 with left BLACK 30000 (right child RED 60000) and right BLACK 70000: recursBalanced returns 2 | each subtree checked against the id range its ancestors allow. The outermost range is (MINID - 1, MAXID + 1), because `insert` accepts only ids in [MINID, MAXID] (fleet.cpp:62-88), so every fleet holds only such ids and the range check rejects no fleet that `insert` can build | medium, not executed | Tester.RecursBalancedAcceptsUnordered | Tester.UnbalancedSearch |
