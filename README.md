# Tree re-parenting: a Dafny model

This project models the node collection of the tree-coding challenge
(`app/model/node.ts`). Each node record has:

- a description;
- a height;
- an optional root pointer and an optional parent pointer;
- an ordered list of child ids.

The model covers these operations:

- `removeChild`: `findIndex` followed by `splice(index, 1)`.
- `setParent`: detach the node from the old parent's in-memory copy, point the node at the new parent, and append it to the new parent's children.
- `calibrateHeightRoot`: its inner `recursiveSearch` walks down the child lists, writing heights and, when one is given, the root.
- `swapParent`: look up both ids, re-link, save three records, and re-height the moved subtree.

How the model is built:

- **`NodeRecords`** (`node_record.dfy`):
  - The stored record.
  - The `Link`/`Shape` projection, which keeps only parent pointers and child lists.
  - The consistency predicates of a forest:
    - links agree both ways and child lists hold no duplicates (`WellLinked`);
    - acyclicity, witnessed by a rank map (`Ranked`);
    - every child is one level below its parent (`HeightsOk`);
    - every child has its parent's root (`RootsOk`).
- **`ChildList`** (`child_list.dfy`):
  - `removeChild` on a child list.
  - `FirstIndex` is `findIndex`, and the method `FindIndex` is its scan.
  - `SpliceOne` is `splice(start, 1)` with JavaScript's rule for negative starts. So removing an absent id drops the last child.
  - `Removed` compares ids by value, which is the behaviour the rest of the model uses. `RemovedAsWritten` compares ObjectId objects by identity, as line 42 does (see "## Findings").
- **`Subtree`** (`subtree.dfy`):
  - The set of records the walk reaches from a node through child lists (`Sub`).
  - The depth of a member, counted along parent pointers (`Depth`).
- **`Calibration`** (`calibrate.dfy`):
  - `recursiveSearch` as a value: `Walk` fetches a record, walks each child one level deeper in list order, then writes the stamped record.
  - Lemmas on what the walk writes, and where.
- **`Swap`** (`swap.dfy`):
  - `swapParent` as a value:
    - `Relinked` holds the three record writes;
    - `Moved` is `Relinked` followed by the walk from the moved node;
    - `SwapResult` is the resolved message.
  - What the move changes and what it keeps.
  - It keeps a consistent forest consistent.
- **`NodeModel`** (`node.dfy`):
  - The imperative side:
    - a `NodeStore` class holding the collection;
    - `NodeDoc` objects, which are fresh in-memory copies returned by `FindById` and written back whole by `Save`;
    - the methods `RemoveChild`, `SetParent`, `RecursiveSearch` and `CalibrateHeightRoot`;
    - the exported `SwapParent`.
  - Every method is proved to leave exactly the store that the value-level definitions describe.
- **`Scenarios`** (`scenarios.dfy`):
  - The swap of the grandchild under the root from the test suite, computed to the last field.
  - The four-node chain that `populateDatabase` links and calibrates.

The walk terminates only on acyclic child lists. Every walk therefore carries a ghost rank map in which each stored child ranks below the node that lists it. `MovedRank` gives the rank for the store after a move.

## Model

| member | source | states |
|---|---|---|
| ChildList.FirstIndex | app/model/node.ts:42 | `findIndex`: -1 exactly when the id is absent; otherwise the position of the first occurrence |
| ChildList.FindIndex | app/model/node.ts:42 | The linear scan returns the first position holding the id, or -1 when no position holds it |
| ChildList.SpliceOne | app/model/node.ts:43 | `splice(start, 1)`: a start inside the list cuts that element; a negative start counts from the end, and one before the beginning cuts the first element; a start at or past the end cuts nothing; an empty list stays empty whatever the start |
| ChildList.Removed | app/model/node.ts:41-44 | The list after `removeChild` is always one shorter, unless it was empty (the lemmas below say which element goes) |
| ChildList.RemovedPresent | app/model/node.ts:41-44 | With the id present, exactly its first occurrence is cut out. The list shrinks by one, and its multiset loses one copy of the id |
| ChildList.RemovedAbsent | app/model/node.ts:42-43 | With the id absent, `splice(-1, 1)` drops the last child. An empty list stays empty |
| ChildList.RemovedSubset | app/model/node.ts:41-44 | Removal never adds an id and keeps a duplicate-free list duplicate-free |
| ChildList.RemovedExactly | app/model/node.ts:41-44 | In a duplicate-free list holding the id, the result holds exactly the other ids |
| ChildList.FirstSameObject | app/model/node.ts:42 | `findIndex` with `===` on ObjectId objects: -1 exactly when no entry is the same object as the id given; otherwise the first position holding that object |
| ChildList.RemovedAsWritten | app/model/node.ts:41-44 | `removeChild` as written, on ObjectId objects: the list is always one shorter, unless it was empty |
| ChildList.RemovedAsWrittenDropsLast | app/model/node.ts:29-32 | When no entry is the caller's object (the list of a freshly loaded document), the last child goes, whatever the id values are |
| ChildList.RemoveByIdentityKeepsWrongChild | app/model/node.ts:29-43 | A loaded parent listing [A, B] asked to remove A keeps [A] as written, where removal by value keeps [B] |
| NodeModel.NodeDoc.RemoveChild | app/model/node.ts:41-44 | Only the document's child list changes, and it becomes the list with the id removed |
| NodeModel.NodeStore.FindById | app/model/node.ts:29 | `findById` returns null exactly when no record is stored under the id. Otherwise it returns a fresh copy holding that record |
| NodeModel.NodeStore.Save | app/model/node.ts:58 | `save` replaces the stored record under the document's id with the document's fields and changes nothing else |
| NodeModel.NodeDoc.SetParent | app/model/node.ts:24-39 | With null, nothing changes. Otherwise this node's parent pointer becomes the node and this id is appended to the node's children (covering the case where the node is this document itself). The returned old parent exists exactly when the parent pointer names a stored record. It is a fresh, unsaved copy of that record with this id removed |
| NodeModel.NodeStore.RecursiveSearch | app/model/node.ts:47-62 | The store afterwards is `Walk` of the store before, so a missing record changes nothing |
| NodeModel.NodeStore.SearchChildren | app/model/node.ts:55-57 | The `forEach` over the children leaves `WalkAll`, the walks of the children taken one after another at the same height |
| NodeModel.NodeDoc.CalibrateHeightRoot | app/model/node.ts:46-68 | The store afterwards is the walk from this document's id at this document's height |
| Calibration.Walk | app/model/node.ts:47-62 | The walk keeps the set of ids and every parent pointer and child list. It stamps the start record with the height, and with the root when one is given |
| Calibration.WalkAll | app/model/node.ts:55-57 | The `forEach`: walking the children one after another at the same height keeps the set of ids and every parent pointer and child list |
| NodeRecords.Stamp | app/model/node.ts:51-54 | One visit writes the given height, and the root only when one is given; description, parent pointer and children stay |
| Calibration.WalkOutside | app/model/node.ts:47-62 | A record the child lists do not reach from the start is left untouched |
| Calibration.WalkInside | app/model/node.ts:50-54 | A reached record changes only in its height and, when a root is given, its root |
| Calibration.WalkFrame | app/model/node.ts:47-62 | Both frame facts for every record: untouched outside the subtree, only height and root inside it |
| Calibration.WalkDepth | app/model/node.ts:54-56 | When children point back at their parents, a record at depth d below the start gets height `height + d` |
| Calibration.WalkAllDepth | app/model/node.ts:55-57 | When children point back at their parents, walking the children one level deeper gives each record below them its depth below the parent plus the parent's height |
| Calibration.WalkParentHeights | app/model/node.ts:54-56 | When children point back at their parents: after the walk, every reached record other than the start has a parent inside the subtree and sits exactly one level below it. The start gets the given height |
| Calibration.WalkIdempotent | app/model/node.ts:46-68 | When children point back at their parents, calibrating a second time from the same node, height and root changes nothing |
| Subtree.Sub | app/model/node.ts:55-57 | The reached set holds only stored ids, holds the start exactly when it is stored, and ranks no member above the start |
| Subtree.SubTrans | app/model/node.ts:55-57 | The subtree of a member lies inside the subtree |
| Subtree.SubClosed | app/model/node.ts:55-57 | A subtree contains every stored child of each of its members |
| Subtree.SubParent | app/model/node.ts:55-57 | With children pointing back, every member except the start has its parent inside the subtree, at a higher rank |
| Subtree.DepthStep | app/model/node.ts:56 | When children point back at their parents, seen from a child, every record below it is one level closer than it is from the parent |
| Subtree.SubSame | app/model/node.ts:55-57 | Two stores with the same ids that agree on the child lists inside a subtree reach the same subtree, whatever ranks witness them |
| Subtree.DepthSame | app/model/node.ts:54-56 | In two stores whose children point back at their parents, the same subtree with the same parent pointers has the same depths |
| Swap.OldParentOf | app/model/node.ts:28-33 | The old parent `setParent` returns exists exactly when the parent pointer is set and names a stored record, and then it is that record's id |
| Swap.Succeeded | app/model/node.ts:74-93 | The success message reads "Swap successful" (line 91), unlike the `Failed to swap` message (line 75); it names both ids (lines 92-93) and, as `oldParentNode`, exactly the old parent `setParent` found (line 83) |
| Swap.Detached | app/model/node.ts:80-83 | Saving the old parent's copy changes only that record, whose child list loses the moved id; without an old parent nothing changes |
| Swap.Relinked | app/model/node.ts:80-87 | After the three saves the new parent holds its loaded record with the moved id appended; the moved node points at it one level below; every other record is as after the old parent's save |
| Swap.RelinkedFields | app/model/node.ts:24-39 | Re-linking changes no description and no root, and changes the parent and height of the moved node only. The new parent's list gains the node at the end, the old parent's list goes through `Removed` (which cuts the node when it is listed), and every other list is unchanged |
| Swap.RelinkedChildSubset | app/model/node.ts:31-35 | After re-linking, each child list holds only old entries, plus the moved node in the new parent's list |
| Swap.RelinkedRanked | app/model/node.ts:80-88 | When the new parent is outside the moved subtree, `MovedRank` witnesses that the re-linked store is acyclic, so the walk of `swapParent` terminates |
| Swap.Moved | app/model/node.ts:80-89 | The store `swapParent` leaves has the same ids as before |
| Swap.RelinkedChildren | app/model/node.ts:28-35 | In a well-linked store, with the node not already under the new parent, the new child lists are exactly the old ones with the node moved from its old parent to the end of the new parent's list (both directions) |
| Swap.RelinkedWellLinked | app/model/node.ts:80-88 | Re-linking under a different parent keeps links two-way and child lists duplicate-free |
| Swap.RelinkedChildLinked | app/model/node.ts:80-88 | Re-linking a well-linked store under any parent, the current one included, leaves every listed child pointing back at the node that lists it |
| Swap.ParentOutsideMoved | app/model/node.ts:85-89 | The new parent stays outside the subtree that the walk re-heights, so its record keeps the height and child list that were saved |
| Swap.MovedAt | app/model/node.ts:89 | After the move, each record equals its re-linked version except for the height. Records outside the moved subtree equal it entirely |
| Swap.MovedNewParent | app/model/node.ts:85-87 | The new parent's final record is its loaded record with the moved id appended to its children |
| Swap.MoveOutcome | app/model/node.ts:72-97 | A successful swap gives the moved node its new parent, its new height and its old children, and gives the new parent the appended child. The old parent's list goes through `Removed`, which cuts the node when it is listed. Descriptions and roots are unchanged, and no other parent pointer or child list changes |
| Swap.MoveUnderSameParent | app/model/node.ts:26-35 | With whole-record saves applied in call order, moving a node under the parent it already has leaves it listed twice in that parent's children |
| Swap.MovedSubtree | app/model/node.ts:89 | In a well-linked store, under any new parent (the current one included), the subtree re-heighted after the move is the node's old subtree, with the same depths |
| Swap.MoveReheightsAt | app/model/node.ts:85-89 | In a well-linked store, per record: at depth d in the moved subtree the new height is the parent's height + 1 + d, and outside it the height is unchanged |
| Swap.MovedInsideHeight | app/model/node.ts:85-89 | In a well-linked store, a record at depth d in the moved subtree ends at the parent's height + 1 + d |
| Swap.MovedOutsideHeight | app/model/node.ts:85-89 | In a well-linked store, a record outside the moved subtree keeps its height |
| Swap.MoveReheights | app/model/node.ts:85-89 | In a well-linked store, the same for every record of the store, under any new parent outside the subtree, the current one included |
| Swap.MovePreservesForest | app/model/node.ts:72-97 | A move in a consistent forest keeps links two-way and duplicate-free, keeps the store acyclic and keeps every child one level below its parent. It keeps roots consistent when the node moves within its own tree |
| Swap.MovedHeightsOk | app/model/node.ts:85-89 | A move under a different parent in a well-linked store where every child sits one level below its parent keeps that so |
| Swap.MovedRootsOk | app/model/node.ts:89 | A move within one tree (same root on the node and the new parent) keeps every node on its parent's root |
| NodeModel.Reattach | app/model/node.ts:80-87 | `setParent`, the save of the old parent when one was found, main one level below parent, then the saves of main and parent: the store becomes `Relinked` and the old parent returned is `OldParentOf` |
| NodeModel.Recalibrate | app/model/node.ts:89 | `calibrateHeightRoot()` on the re-linked main at its new height, without a root, leaves exactly `Moved` |
| NodeModel.SwapParent | app/model/node.ts:72-97 | When either id is missing, the result is "Failed to swap" and the store is unchanged. Otherwise the result is "Swap successful" with both ids and the old parent when one was stored, and the store becomes `Moved` |
| Scenarios.ThreeLevelsLevels | app/test/node.test.ts:239-244 | The three-level tree the swap test builds is consistent in heights and roots |
| Scenarios.GrandchildAllowed | app/test/node.test.ts:245 | Moving the grandchild under the root is allowed, and its old parent is the middle node |
| Scenarios.GrandchildLinks | app/test/node.test.ts:257-272 | After the swap, the grandchild hangs under the root at height 1 |
| Scenarios.GrandchildNewParent | app/test/node.test.ts:261-262 | After the swap, the root lists the middle node and then the grandchild |
| Scenarios.GrandchildOldParent | app/test/node.test.ts:263-270 | After the swap, the middle node no longer lists the grandchild and still points at the root |
| Scenarios.GrandchildLabels | app/test/node.test.ts:274-282 | After the swap, every root is still the root node |
| Scenarios.GrandchildHeights | app/test/node.test.ts:257-259 | After the swap, the middle node keeps height 1 |
| Scenarios.GrandchildToRoot | app/test/node.test.ts:239-288 | The whole store after the swap, computed record by record: heights 0/1/1, both other nodes under the root, all rooted at the root |
| Scenarios.ChainWalk | app/app.ts:28-53 | Calibrating the chain root→a→c→d from the root, with the root's id, stamps every record, from the leaf up |
| Scenarios.ChainCalibrated | app/app.ts:44-53 | After calibration the chain has heights 0, 1, 2, 3 and the root id on every record, whatever heights the other records had |

## Left out

- The HTTP routes and server start-up in `app/app.ts` (lines 1-26) are not part of this model. Neither is `app/helpers.ts`. `populateDatabase` appears only as the chain scenario.
- `createNode`, `deleteNode`, id-format validation, and the error objects that the tests expect from `swapParent` are not in `app/model/node.ts`. The code resolves with the `Failed to swap` message instead, and the model follows the code.
- Asynchrony is modelled as one sequential order:
  - The model runs the walk as a depth-first pass in which each child's walk finishes before the next starts. The source's unawaited `forEach` and unawaited `oldParent.save()` can interleave.
  - In a well-linked store (every child points back at the one parent that lists it, and no list repeats an id) the walk reaches each record once, so its writes touch disjoint records. A store that is only acyclic may list a record under two parents; the walk then writes it twice, and the model keeps the last write in depth-first order, where the source's result depends on which unawaited write lands last.
- `recursiveSearch` on a missing record never resolves its promise in the source. The model treats it as a walk that changes nothing.
- Mongoose saves only modified paths. The model writes the whole record.
  - The two agree except when two in-memory copies of one record are saved. That happens in two cases. In the first, the moved node is placed under its current parent: the model applies the two whole-record saves in call order, so the copy with the id appended wins, and `Swap.MoveUnderSameParent` states that the id is then listed twice. In the second, the moved node's parent pointer names the node itself (the store is then not well linked, though `MoveAllowed` admits it, since ranks constrain only child lists): `setParent` loads a second copy of the moved node as its old parent and drops a child from that copy.
  - `Swap.RelinkedChildren`, `Swap.RelinkedWellLinked`, `Swap.MovedHeightsOk` and `Swap.MovePreservesForest` assume the moved node's parent pointer differs from the new parent, because the first case lists the node twice.
- Swap.MoveOutcome: states that the moved node keeps its child list. In the second case above the model's whole-record save of main restores the full list, while with Mongoose's modified-path saves `main.save()` (line 86) writes only the parent pointer and height, so the shortened list saved through the old parent's copy stays.
- Swap.MoveUnderSameParent: describes the model's whole-record saves, not a promise about the source. There the copy without the id is saved unawaited (line 82) and may land before or after the new parent's save (line 87), and a pushed array may be written as an append of the new element; under that reading the result is the id listed once, at the end.
- Ids are natural numbers, not ObjectIds, and the model compares them by value everywhere. The `childid === id` test of `findIndex` (line 42) compares two ObjectId objects by identity, so in `setParent` it never matches and the old parent loses its last child, which is the moved node only when that node is listed last; `ChildList.RemovedAsWritten` models that and "## Findings" records it, while `Removed`, and with it `Swap` and `NodeModel`, follow the removal by value the code evidently intends.
- A missing height (the schema leaves it optional) is modelled as an arbitrary integer, as in the chain scenario. In the source `parent.height + 1` (line 85) is then `NaN`, and so is every height the walk derives from it, which no integer represents. Number precision is not modelled.
- NodeModel.SwapParent: requires an acyclic store whose new parent lies outside the moved subtree (`MoveAllowed`). The source hangs or loops when the moved subtree would close a cycle, as in the test that moves a root under its own child. The model does not describe that run.
- Swap.MovePreservesForest: states root consistency only for a move within the node's own tree. `swapParent` calibrates without a root, so a move across trees leaves the old roots in the moved subtree, and the lemma's hypothesis excludes that case.

## Findings

| source | as written | input that shows it | evidently intended | confidence | as-written member | corrected member |
|---|---|---|---|---|---|---|
| app/model/node.ts:42 | `childid === id` compares ObjectId objects by identity. The id `setParent` passes (`this._id`, line 31) is never an entry of the old parent's freshly loaded `children` (line 29), so `findIndex` gives -1 and `splice(-1, 1)` drops the old parent's last child | old parent R lists [A, B] and A moves under B: R keeps [A] and loses B | remove the moved id, comparing ids by value as the tests do with `toString` | medium, not executed | ChildList.RemoveByIdentityKeepsWrongChild | ChildList.RemovedPresent |
