# django-trees nested-set engine, modelled in Dafny

django-trees stores each tree of a forest as nested intervals. Every node row
carries `_left`, `_right`, `_depth` and `_tree_id` next to a `_parent` link.
Ancestors and descendants are found by comparing intervals within one
`_tree_id`. Every structural change is a fixed sequence of bulk
`filter(...).update(...)` calls that add a delta to a column of the rows
matching a predicate.

The model follows the three core files:

- `table.dfy` (module `Table`): the node table as a map from primary key to
  row, the filter/update vocabulary and the interval selections.
- `managers.dfy` (module `Managers`): `NodeManager`, a class over that map
  whose methods perform the same updates in the same order as
  `django_trees/managers.py`. Each method is proved equal to a pure function
  over the table, and lemmas state row by row what each step changes.
- `models.dfy` (module `Models`): the read queries, the ASCII rendering
  (`_tree_lines` as a method with loops, proved equal to a declarative
  rendering) and a node instance class with its column defaults, the
  `parent` setter and the delegation of `move` / `bifurcate`.
- `signals.dfy` (module `Signals`): `pre_save_node`, `pre_delete_node`, and
  the `save` / `delete` calls that fire them. A delete fires the hook once per
  collected row in an order given as input, because Django's collector
  decides it.
- `valid.dfy` (module `Invariant`): the nested-set invariant (intervals well
  formed and nested within a tree, spans twice the subtree size, depths equal
  to the number of ancestors, roots starting at 1), its consequence that each
  tree numbers its edges 1 to `2n` without gaps, and the facts about
  order-keeping updates that the preservation proofs share.
- `deletion_proof.dfy` (module `DeletionProof`): deleting a node with the
  hook's compensation keeps the invariant, and the hook order that breaks it.
- `insertion_proof.dfy` (module `InsertionProof`): saving a new child into its
  parent's tree keeps the invariant, and the stale tree id case below.
- `move_proof.dfy` (module `MoveSteps`): `_move_node` and `_bifurcate` in
  closed form, row by row, composed from the step lemmas.
- `move_valid.dfy` (module `MoveInvariant`): `_bifurcate` and `_move_node`
  under a parent keep the invariant. Both are split into the rest of the
  table, closed as by a delete, and the subtree cut out as its own tree
  numbered from 1; a bifurcation is the union of the two forests, a move
  grafts the second under the parent in the first.

Two facts of the source shape the model:

- Several manager methods read columns from the caller's Python instance
  rather than from the table: `_move_node`'s `original_tree_id`, the
  `_depth` that `_bifurcate` subtracts, and the `_tree_id` that
  `pre_save_node` widens. These values are explicit inputs of the model, so a
  stale instance is represented as it is in the source.
- `_bifurcate` (django_trees/managers.py:26-29) never clears `_parent`. The
  test at django_trees/tests/branched_tree_tests.py:505 expects `None`. The
  model does what the code does and keeps the link.

## Model

| member | source | states |
|---|---|---|
| `Managers.NextTreeId` | django_trees/managers.py:10-11 | the next tree id is 1 on an empty table, larger than every stored `_tree_id`, and one more than the largest |
| `Managers.NodeManager.GetNextTreeId` | django_trees/managers.py:10-11 | the loop over the table returns exactly `NextTreeId` |
| `Managers.NodeManager.Update` | django_trees/managers.py:83-84 | one `filter(f).update(c)`: every matching row changed by `c`, every other row as it was |
| `Managers.NodeManager.CountDescendants` | django_trees/managers.py:36 | the count the renumbering uses is the number of rows strictly inside the node's interval |
| `Managers.NodeManager.UpdateEdges` | django_trees/managers.py:82-84 | `_left` shifted on the first selection, then `_right` on the second |
| `Managers.EdgesShiftedRow` | django_trees/managers.py:82-84 | a row's `_left` moves exactly when it meets the left bound and `_right` exactly when it meets the right bound, only in the filtered tree |
| `Managers.NodeManager.RenumberSourceTreeForNodeInsertion` | django_trees/managers.py:31-33 | the table after insertion widening |
| `Managers.NodeGapOpenedRows` | django_trees/managers.py:31-33 | `_left` grows by 2 exactly where it is past the pivot, `_right` exactly where it is at or past it; other trees unchanged |
| `Managers.NodeManager.DetachSubtree` | django_trees/managers.py:75-80 | the table after detaching the node under the next tree id |
| `Managers.DetachedRows` | django_trees/managers.py:75-80 | exactly the rows of the node's subtree take the new tree id; no other column or row changes |
| `Managers.NodeManager.RenumberSourceTreeEdges` | django_trees/managers.py:35-40 | the table after closing the source gap |
| `Managers.SourceEdgesClosedRows` | django_trees/managers.py:35-40 | in the source tree every edge past the node's old `_left` moves back by `2 * (descendants + 1)` |
| `Managers.NodeManager.RenumberDetachedTreeEdges` | django_trees/managers.py:42-48 | the table after renormalising the detached tree |
| `Managers.DetachedEdgesRenumberedRows` | django_trees/managers.py:42-48 | the detached tree is translated so the node's `_left` becomes the target parent's `_left + 1`, or 1 without a parent |
| `Managers.NodeManager.RenumberSourceTreeForSubtreeInsertion` | django_trees/managers.py:50-56 | the table after opening the destination gap |
| `Managers.SubtreeGapOpenedRows` | django_trees/managers.py:50-56 | in the parent's tree every edge after the parent's `_left` moves on by the subtree's width |
| `Managers.NodeManager.RenumberSourceTreeForSubtreeDeletion` | django_trees/managers.py:58-63 | the table after delete compensation |
| `Managers.DeletionGapClosedRows` | django_trees/managers.py:58-63 | in the node's tree every edge at or past its `_right` moves back by the subtree's width |
| `Managers.NodeManager.AttachSubtree` | django_trees/managers.py:65-73 | the table after attaching |
| `Managers.AttachedRows` | django_trees/managers.py:65-73 | the node's tree joins the parent's tree with every depth shifted by `parent.depth + 1 - node.depth`; the node records the parent |
| `Managers.NodeManager.MoveNode` | django_trees/managers.py:13-24 | a missing node fails its `get` and changes nothing; a move into the node itself or a descendant is refused and changes nothing; a missing parent fails its `get` after the subtree is detached and its gap closed, and leaves that table; any other move is detach, close, renormalise, then open and attach when there is a parent |
| `Managers.NodeManager.Bifurcate` | django_trees/managers.py:26-29 | a missing node fails its `get` and changes nothing; otherwise a move to no parent followed by the depth lift |
| `Managers.NodeManager.LiftSeveredDepths` | django_trees/managers.py:28-29 | every depth in the severed node's new tree drops by the instance's depth |
| `Models.Children` | django_trees/models.py:36-37 | exactly the rows whose `_parent` is the node |
| `Models.Ancestors` | django_trees/models.py:39-43 | exactly the same-tree rows enclosing the node, by ascending `_right`; an unstored node has none to fetch |
| `Models.Descendants` | django_trees/models.py:45-49 | exactly the same-tree rows strictly inside the node, by ascending `_left`; an unstored node has none to fetch |
| `Models.AncestorsMirrorDescendants` | django_trees/models.py:39-49 | `a` is an ancestor of `d` exactly when `d` is a descendant of `a` |
| `Models.Indented` | django_trees/models.py:24-28 | a child's first line carries `' +-- '`, its later lines `'     '` below the last child and `' |   '` otherwise, and the child's line follows the prefix unchanged |
| `Models.Lines` | django_trees/models.py:20-28 | a rendering starts with the node's own name |
| `Models.LinesCount` | django_trees/models.py:20-28 | a rendering has one line for the node and one for each row whose `_parent` links lead to it |
| `Models.BlocksCount` | django_trees/models.py:24-28 | the children's blocks hold one line per row under those children, children included |
| `Models.CoveredIsBelow` | django_trees/models.py:22-26 | the rows under the node's children, children included, are exactly the rows under the node |
| `Models.ChildDistinct` | django_trees/models.py:22-26 | no row lies under two different children, so no line is yielded twice |
| `Models.TreeLines` | django_trees/models.py:20-28 | the generator with its running prefix yields exactly the declarative rendering |
| `Models.YieldIndented` | django_trees/models.py:25-28 | the inner loop yields the child's lines behind the prefix that changes after the first line |
| `Models.LinesPrefixed` | django_trees/models.py:20-28 | every line below the first starts with one of the three five-character prefixes |
| `Models.ChildlessRendersName` | django_trees/models.py:17-18 | the rendering of a node without children is its name alone |
| `Models.NodeInstance.constructor` | django_trees/models.py:7-11 | a new node is a one-node tree: `_left` 1, `_right` 2, `_depth` 0, no parent, under a tree id no row uses |
| `Models.NodeInstance.SetParent` | django_trees/models.py:55-61 | a saved node refuses with the fixed message and changes nothing; an unsaved one takes the parent, its depth + 1 and its tree id |
| `Models.NodeInstance.Move` | django_trees/models.py:30-31 | delegates to `_move_node` with the instance's own `_tree_id`; an unsaved instance is not found and changes nothing; an unsaved new parent is not found once the subtree is detached and its gap closed |
| `Models.NodeInstance.Bifurcate` | django_trees/models.py:33-34 | delegates to `_bifurcate` with the instance's own `_tree_id` and `_depth`; an unsaved or missing instance is not found and changes nothing |
| `Signals.Placed` | django_trees/signals.py:14-16 | a new child sits one level below its parent at `[parent.right, parent.right + 1]`, other columns kept |
| `Signals.PreSaveNode` | django_trees/signals.py:10-17 | does nothing for a saved node or one without a parent; a parent that is unsaved or not stored fails its `get` and nothing changes; otherwise places the node and widens the tree named by the instance's `_tree_id` |
| `Signals.Save` | django_trees/signals.py:10-17 | a new child is placed, the tree widened, and the row stored under its new key; a parent that cannot be fetched aborts the save with nothing written; any other save writes the row as it is |
| `Signals.InsertionWidensAncestors` | django_trees/signals.py:12-17 | the parent and each of its ancestors grow their `_right` by 2 and keep their `_left`; the child takes the two freed slots |
| `Signals.DescendantsFlaggedRows` | django_trees/signals.py:6 | flagging marks exactly the node's descendants and nothing else |
| `Signals.PreDeleteNode` | django_trees/signals.py:3-7 | a flagged node does nothing; an unflagged one flags its descendants, then closes the gap |
| `Signals.CompensationFlagsDescendants` | django_trees/signals.py:5-7 | after the first hook every descendant is flagged, so its own hook will do nothing |
| `Signals.Delete` | django_trees/signals.py:3-7 | deleting a node fires the hook on each collected row in the collector's order, each on the table the previous hooks left, then removes the node and its descendants |
| `Signals.FlaggedHooksIdle` | django_trees/signals.py:4-5 | hooks on rows that are all flagged leave the table as it is |
| `Signals.NodeFirstDelete` | django_trees/signals.py:3-7 | when the node's own hook fires first, the delete closes the gap exactly once: the result is the single compensation followed by the removal |
| `DeletionProof.PkOrderClosesTwice` | django_trees/signals.py:3-7 | from a valid table, hooks in primary-key order close the gap twice and leave an interval reversed, where the node-first delete leaves a valid table |
| `Invariant.ValidIsDense` | django_trees/models.py:8-9 | under the invariant a root's tree is its subtree, the root spans `[1, 2n]`, and the tree's `2n` endpoints are the integers 1 to `2n`, each once |
| `Invariant.EndpointsCount` | django_trees/models.py:39-49 | the rows of a subtree share no endpoint, which the strict interval comparisons of the selections rely on, so they have twice as many endpoints as rows |
| `Invariant.TreeOfRoot` | django_trees/models.py:39-49 | every row that shares a root's tree id lies in the root's subtree |
| `Invariant.SubtreeIsNodeAndDescendants` | django_trees/models.py:45-49 | under the invariant a node's subtree is exactly the node plus its descendants, so the width `(len(descendants) + 1) * 2` counts it |
| `Invariant.WidthIsSpan` | django_trees/managers.py:36 | for a sized node the width computed from the descendant count is its span `_right - _left + 1` |
| `Invariant.SelectionsKept` | django_trees/models.py:39-49 | an update that keeps every endpoint comparison selects the same descendants and ancestors |
| `DeletionProof.SurvivorRow` | django_trees/managers.py:58-63 | after a delete every surviving row of the node's tree has each endpoint past the node pulled back by the node's width; other trees are untouched |
| `DeletionProof.SurvivorSubtree` | django_trees/signals.py:3-7 | a survivor's subtree is its old subtree minus the deleted rows |
| `DeletionProof.DeletionKeepsValid` | django_trees/signals.py:3-7 | deleting any node of a valid table leaves a valid table |
| `InsertionProof.OldSubtree` | django_trees/managers.py:31-33 | an old row's subtree gains the new child exactly when the row encloses the parent |
| `InsertionProof.NewAncestors` | django_trees/signals.py:12-17 | the new child's ancestors are its parent and the parent's ancestors |
| `InsertionProof.InsertionKeepsValid` | django_trees/signals.py:10-17 | saving a new child placed in its parent's tree keeps a valid table valid |
| `InsertionProof.InsertedUnderParent` | django_trees/signals.py:12-17 | the corrected insertion stores the child in the tree of the stored parent |
| `InsertionProof.PlacedUnderParent` | django_trees/signals.py:12-17 | after the corrected insertion the table is valid, the child is a descendant of its parent, and its ancestors are the parent and the parent's ancestors |
| `InsertionProof.StaleTreeIdStrandsChild` | django_trees/models.py:55-61 | from the valid table after `b.bifurcate()`, saving `C` under the stale `b` stores `C` with `_parent` `B` while `B` is unchanged, `C` is not among `B`'s descendants, and `C`'s only ancestor is `A` |
| `MoveSteps.RenumberStep` | django_trees/managers.py:42-48 | after closing and renormalising, the subtree is translated so the node starts just after the pivot, and every other row is the closed host row |
| `MoveSteps.OpenStep` | django_trees/managers.py:50-56 | opening the gap moves exactly the host endpoints after the parent's `_left` on by the subtree's width |
| `MoveSteps.MovedRow` | django_trees/managers.py:13-24 | a move under a parent: hosts close the source gap and open one after the parent's `_left`; the subtree lands in that gap one level below the parent, and the node records the parent |
| `MoveSteps.SeveredRow` | django_trees/managers.py:13-24 | a move to no parent: hosts close the source gap and the subtree becomes its own tree starting at 1 with its depths untouched |
| `MoveSteps.BifurcatedRow` | django_trees/managers.py:26-29 | `_bifurcate`: as a move to no parent, with the subtree's depths lowered by the node's so the node becomes a root at depth 0 |
| `MoveInvariant.SeveredValid` | django_trees/managers.py:42-48 | the subtree cut out of a valid table and renumbered from 1 is a valid one-tree table whose root spans `[1, 2 * size]` at depth 0 with no ancestors |
| `MoveInvariant.ForestUnion` | django_trees/managers.py:75-80 | two valid tables with disjoint keys and disjoint tree ids form a valid table |
| `MoveInvariant.BifurcatedSplit` | django_trees/managers.py:26-29 | the bifurcated table is exactly the delete-closed rest of the table together with the cut-out subtree |
| `MoveInvariant.BifurcateKeepsValid` | django_trees/managers.py:26-29 | bifurcating any node of a valid table leaves a valid table in which the node is a root spanning `[1, 2 * size]` at depth 0 over the same subtree |
| `MoveInvariant.HostSubtree` | django_trees/managers.py:50-56 | after a graft a host row's subtree gains the grafted rows exactly when the row encloses the parent |
| `MoveInvariant.GuestAncestors` | django_trees/managers.py:65-73 | a grafted row's ancestors are its own within the subtree, the parent, and the parent's ancestors |
| `MoveInvariant.GraftKeepsValid` | django_trees/managers.py:50-73 | opening the gap after the parent's `_left` and attaching a valid one-tree table there keeps a valid table valid |
| `MoveInvariant.GraftedRoot` | django_trees/managers.py:65-73 | the attached root sits at the parent's `_left + 1`, one level below it, over its own subtree, with the parent and the parent's ancestors as ancestors |
| `MoveInvariant.MovedSplit` | django_trees/managers.py:13-24 | a move under a parent is exactly the cut-out subtree grafted under the parent of the delete-closed rest |
| `MoveInvariant.MoveKeepsValid` | django_trees/managers.py:13-24 | a move that passes the cycle check keeps a valid table valid; the node records the parent, sits just after the parent's `_left` one level below it, keeps its subtree, and has the parent and the parent's ancestors as ancestors |

## Left out

- The Django ORM binding (`contribute_to_class`, signal wiring, query laziness, `models.F`): the table is an in-memory map and each bulk update is a loop over it.
- Transactions, row locking and concurrent writers: the engine is modelled as sequential.
- `get_children` has no `order_by`; the database's order is modelled as primary-key order.
- The `str()` of a node: the rendering takes the node's name as opaque text.
- Deletion cascades along `_parent` links; the model removes the node's interval descendants, which are the same rows as long as links and intervals agree.
- Signals.Delete: the order of the hooks is an input; which order Django's collector uses is outside the model.
- Models.TreeLines: requires the `_parent` links to be acyclic (a ranking of them); on a cycle the source recurses without end.
- Managers.NodeManager.MoveNode: a move to no parent keeps every depth, so the new root keeps its old `_depth`; `_bifurcate` is the operation that lowers them, and only it is proved to produce a root at depth 0.
- MoveSteps.MovedRow, MoveSteps.SeveredRow, MoveSteps.BifurcatedRow: stated for a fresh instance (its `_tree_id` and `_depth` equal to the stored row's) in a table whose node is well nested and sized; with a stale instance the source renumbers the tree the instance names.
- The invariant does not relate `_parent` links to intervals: the engine never reads `_parent` when it renumbers, and only the `_parent` of a moved node is rewritten.
- MoveInvariant.MoveKeepsValid, MoveInvariant.BifurcateKeepsValid: stated for a fresh instance, as for the closed forms above. A move to no parent through `_move_node` alone is not proved to keep the invariant: it leaves the new root's `_depth` as it was.
- The test-only helpers (`Directory` in test_json.py, `edges`, `max_tree_depth`, the test helper module) and setup.py.

## Findings

| source | as written | input that shows it | evidently intended | confidence | as-written member | corrected member |
|---|---|---|---|---|---|---|
| django_trees/signals.py:3-7 | `pre_delete_node` skips a row only when it is flagged, and only the first hook of a delete flags anything; the collector sends the hooks in primary-key order, so a descendant with a smaller key than the deleted node runs its hook first, closes its own gap, and leaves its interval reversed but still inside the node's | root `R` (key 3) over `Y` (key 2) over `X` (key 1), where `X` was created as a root and then moved under `Y`; `y.delete()` fires `X`'s hook, then `Y`'s, and `R` ends at `[1, 0]` instead of `[1, 2]` | the gap of the deleted subtree is closed once, whatever the hook order: the single compensation `Signals.NodeFirstDelete` yields, which keeps the table valid | not executed | `DeletionProof.PkOrderClosesTwice` | `DeletionProof.DeletionKeepsValid` |
| django_trees/signals.py:10-17 | the `parent` setter (django_trees/models.py:55-61) copies `_tree_id` from the instance passed in, and `pre_save_node` widens the tree that copy names while placing the child at the stored parent's `_right` | root `A` with child `B`; `b.bifurcate()`; then `create(name='C', parent=b)` with the same `b` object, whose `_tree_id` still says 1 | the child goes into the stored parent's tree, below it | not executed | `InsertionProof.StaleTreeIdStrandsChild` | `InsertionProof.InsertedUnderParent` |
