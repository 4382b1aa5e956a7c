/**
  The two signal handlers the manager connects: `pre_save_node` places a new
  child and widens its tree, `pre_delete_node` closes the gap a deleted
  subtree leaves. `Save` and `Delete` stand for the ORM calls that fire them.
*/
module Signals {
  import opened Table
  import opened Managers
  import opened Models

  // ---------------------------------------------------------------------
  // pre_save_node
  // ---------------------------------------------------------------------

  /** A new child of the stored row `parent`: one level below it, occupying `[parent.right, parent.right + 1]`. */
  function Placed(row: Row, parent: Row): (r: Row)
    ensures r.left == parent.right && r.right == r.left + 1 && r.depth == parent.depth + 1
    ensures r.(left := row.left, right := row.right, depth := row.depth) == row
  {
    row.(depth := parent.depth + 1, left := parent.right, right := parent.right + 1)
  }

  /** The table after saving `row` as a new child of `parent` under the fresh key `nid`. */
  function InsertedRows(rows: Rows, row: Row, parent: Id, nid: Id): (r: Rows)
    requires parent in rows
    ensures r.Keys == rows.Keys + {nid}
  {
    var placed := Placed(row, rows[parent]);
    NodeGapOpened(rows, placed)[nid := placed]
  }

  /** The instance has the state `pre_save_node` acts on: unsaved and with a parent. */
  predicate PlacesChild(inst: NodeInstance)
    reads inst
  {
    inst.pk.None? && inst.parent != null
  }

  /** How a save ends: written, or the hook's `get` found no row for the parent (`DoesNotExist`). */
  datatype SaveOutcome = Saved | MissingParent

  /** `pre_save_node`. An unsaved parent is looked up by a `None` key and not found. */
  method PreSaveNode(m: NodeManager, inst: NodeInstance) returns (outcome: SaveOutcome)
    modifies m, inst
    ensures outcome == MissingParent <==>
      old(PlacesChild(inst)) && !(old(inst.parent.pk).Some? && old(inst.parent.pk).value in old(m.rows))
    ensures !old(PlacesChild(inst)) || outcome == MissingParent ==> m.rows == old(m.rows) && unchanged(inst)
    ensures old(PlacesChild(inst)) && outcome == Saved ==>
      var parentRow := old(m.rows[inst.parent.pk.value]);
      && inst.AsRow() == Placed(old(inst.AsRow()), parentRow)
      && inst.pk == old(inst.pk) && inst.parent == old(inst.parent)
      && m.rows == NodeGapOpened(old(m.rows), inst.AsRow())
  {
    outcome := Saved;
    if inst.pk.None? && inst.parent != null {
      if inst.parent.pk.None? || inst.parent.pk.value !in m.rows {
        return MissingParent;
      }
      var parent := m.rows[inst.parent.pk.value];
      inst.depth := parent.depth + 1;
      inst.left := parent.right;
      inst.right := inst.left + 1;
      m.RenumberSourceTreeForNodeInsertion(inst.AsRow());
    }
  }

  /**
    `save()` on an instance: the pre-save hook, then the row write. A new
    instance is stored under `newPk`, the key the database assigns it. When
    the hook raises, nothing is written.
  */
  method Save(m: NodeManager, inst: NodeInstance, newPk: Id) returns (outcome: SaveOutcome)
    requires inst.pk.None? ==> newPk !in m.rows
    modifies m, inst
    ensures outcome == MissingParent <==>
      old(PlacesChild(inst)) && !(old(inst.parent.pk).Some? && old(inst.parent.pk).value in old(m.rows))
    ensures outcome == MissingParent ==> m.rows == old(m.rows) && unchanged(inst)
    ensures outcome == Saved ==> inst.pk == if old(inst.pk).Some? then old(inst.pk) else Some(newPk)
    ensures old(PlacesChild(inst)) && outcome == Saved ==>
      m.rows == InsertedRows(old(m.rows), old(inst.AsRow()), old(inst.parent.pk.value), newPk)
    ensures !old(PlacesChild(inst)) ==> m.rows == old(m.rows)[inst.pk.value := old(inst.AsRow())]
  {
    outcome := PreSaveNode(m, inst);
    if outcome == MissingParent {
      return;
    }
    if inst.pk.None? {
      inst.pk := Some(newPk);
    }
    m.rows := m.rows[inst.pk.value := inst.AsRow()];
  }

  /**
    Saving a child places it as the parent's last child: the parent and every
    ancestor of it grow their `_right` by 2 and keep their `_left`, and the
    child sits in the two slots the parent's right edge left behind.
  */
  lemma InsertionWidensAncestors(rows: Rows, row: Row, parent: Id, nid: Id)
    requires parent in rows && nid !in rows
    requires row.treeId == rows[parent].treeId
    requires rows[parent].left < rows[parent].right
    ensures var r := InsertedRows(rows, row, parent, nid);
      && r[nid].left == rows[parent].right && r[nid].right == rows[parent].right + 1
      && r[nid].depth == rows[parent].depth + 1
      && r[parent].left == rows[parent].left && r[parent].right == rows[parent].right + 2
      && (forall a :: a in AncestorIds(rows, parent) ==> r[a].left == rows[a].left && r[a].right == rows[a].right + 2)
  {
    NodeGapOpenedRows(rows, Placed(row, rows[parent]));
  }

  // ---------------------------------------------------------------------
  // pre_delete_node
  // ---------------------------------------------------------------------

  /** `instance.get_descendants().update(_deleting=True)`. */
  function DescendantsFlagged(rows: Rows, nid: Id): (r: Rows)
    requires nid in rows
    ensures r.Keys == rows.Keys
  {
    var node := rows[nid];
    UpdateRows(rows, Filter(node.treeId, [Bound(Left, Gt, node.left), Bound(Right, Lt, node.right)]), SetDeleting)
  }

  /** Flagging marks exactly the node's descendants and touches no other column. */
  lemma DescendantsFlaggedRows(rows: Rows, nid: Id)
    requires nid in rows
    ensures forall k :: k in rows ==>
      DescendantsFlagged(rows, nid)[k] == if k in DescendantIds(rows, nid) then rows[k].(deleting := true) else rows[k]
  {
    var node := rows[nid];
    MatchesTwo(node.treeId, Bound(Left, Gt, node.left), Bound(Right, Lt, node.right));
  }

  /** What the first `pre_delete_node` for an unflagged node leaves behind. */
  function DeletionCompensated(rows: Rows, nid: Id): (r: Rows)
    requires nid in rows
    ensures r.Keys == rows.Keys
  {
    DeletionGapClosed(DescendantsFlagged(rows, nid), nid)
  }

  /** `pre_delete_node` for the stored node `nid`. */
  method PreDeleteNode(m: NodeManager, nid: Id)
    requires nid in m.rows
    modifies m
    ensures old(m.rows[nid].deleting) ==> m.rows == old(m.rows)
    ensures !old(m.rows[nid].deleting) ==> m.rows == DeletionCompensated(old(m.rows), nid)
  {
    var instance := m.rows[nid];
    if !instance.deleting {
      m.Update(Filter(instance.treeId, [Bound(Left, Gt, instance.left), Bound(Right, Lt, instance.right)]), SetDeleting);
      m.RenumberSourceTreeForSubtreeDeletion(nid);
    }
  }

  /**
    After the first hook every descendant of the node is flagged, and the
    compensation ran on the same subtree it would have without the flags.
  */
  lemma CompensationFlagsDescendants(rows: Rows, nid: Id)
    requires nid in rows
    ensures forall j :: j in DescendantIds(rows, nid) ==> DeletionCompensated(rows, nid)[j].deleting
    ensures DescendantIds(DescendantsFlagged(rows, nid), nid) == DescendantIds(rows, nid)
  {
    var flagged := DescendantsFlagged(rows, nid);
    DescendantsFlaggedRows(rows, nid);
    assert flagged[nid] == rows[nid];
    DeletionGapClosedRows(flagged, nid);
  }

  /** The table after deleting `nid`: compensated once, then the node and its descendants removed. */
  function DeletedRows(rows: Rows, nid: Id): (r: Rows)
    requires nid in rows
    ensures r.Keys == rows.Keys - ({nid} + DescendantIds(rows, nid))
  {
    var doomed := {nid} + DescendantIds(rows, nid);
    var compensated := DeletionCompensated(rows, nid);
    map k | k in compensated && k !in doomed :: compensated[k]
  }

  /** The node and the descendants the cascade on `parent` collects with it. */
  function Doomed(rows: Rows, nid: Id): (r: set<Id>)
    requires nid in rows
    ensures nid in r && r <= rows.Keys
  {
    {nid} + DescendantIds(rows, nid)
  }

  /**
    One `pre_delete_node` on a table value: it reads the row afresh, and
    only an unflagged row flags its descendants and closes the gap.
  */
  function DeleteHooked(rows: Rows, j: Id): (r: Rows)
    requires j in rows
    ensures r.Keys == rows.Keys
    ensures rows[j].deleting ==> r == rows
  {
    if rows[j].deleting then rows else DeletionCompensated(rows, j)
  }

  /** The hooks fired one after another, in the order the collector sends them. */
  function HooksFired(rows: Rows, order: seq<Id>): (r: Rows)
    requires forall i :: 0 <= i < |order| ==> order[i] in rows
    ensures r.Keys == rows.Keys
    decreases |order|
  {
    if order == [] then rows else HooksFired(DeleteHooked(rows, order[0]), order[1..])
  }

  /** `order` lists each collected row exactly once. */
  predicate Collected(rows: Rows, nid: Id, order: seq<Id>)
    requires nid in rows
  {
    && (forall i :: 0 <= i < |order| ==> order[i] in Doomed(rows, nid))
    && (forall j :: j in Doomed(rows, nid) ==> j in order)
    && (forall i, i' :: 0 <= i < i' < |order| ==> order[i] != order[i'])
  }

  /** The table once the collected rows are removed. */
  function Removed(rows: Rows, doomed: set<Id>): (r: Rows)
    ensures r.Keys == rows.Keys - doomed
    ensures forall k :: k in r ==> r[k] == rows[k]
  {
    map k | k in rows && k !in doomed :: rows[k]
  }

  /**
    `delete()` on the stored node `nid`: the cascade collects the node and its
    descendants, `pre_delete_node` fires once per collected row in `order`,
    and the rows are removed. Which row the collector sends first is not
    decided here: Django sends the signals in primary-key order.
  */
  method Delete(m: NodeManager, nid: Id, order: seq<Id>)
    requires nid in m.rows && Collected(m.rows, nid, order)
    modifies m
    ensures m.rows == Removed(HooksFired(old(m.rows), order), Doomed(old(m.rows), nid))
  {
    ghost var start := m.rows;
    var doomed := Doomed(m.rows, nid);
    var i := 0;
    while i < |order|
      invariant 0 <= i <= |order|
      invariant m.rows.Keys == start.Keys
      invariant HooksFired(m.rows, order[i..]) == HooksFired(start, order)
    {
      assert order[i..][1..] == order[i + 1..];
      PreDeleteNode(m, order[i]);
      i := i + 1;
    }
    assert order[i..] == [];
    m.rows := Removed(m.rows, doomed);
  }

  /** Hooks for rows that are all flagged change nothing. */
  lemma {:induction false} FlaggedHooksIdle(rows: Rows, order: seq<Id>)
    requires forall i :: 0 <= i < |order| ==> order[i] in rows && rows[order[i]].deleting
    ensures HooksFired(rows, order) == rows
    decreases |order|
  {
    if order != [] {
      FlaggedHooksIdle(rows, order[1..]);
    }
  }

  /**
    When the node's own hook comes first, the delete closes the gap exactly
    once: the descendants' hooks find their rows flagged and do nothing.
  */
  lemma NodeFirstDelete(rows: Rows, nid: Id, order: seq<Id>)
    requires nid in rows && !rows[nid].deleting
    requires Collected(rows, nid, order) && order != [] && order[0] == nid
    ensures Removed(HooksFired(rows, order), Doomed(rows, nid)) == DeletedRows(rows, nid)
  {
    var compensated := DeletionCompensated(rows, nid);
    var rest := order[1..];
    assert HooksFired(rows, order) == HooksFired(compensated, rest);
    LaterHooksFlagged(rows, nid, order);
    FlaggedHooksIdle(compensated, rest);
  }

  /** After the node's own hook, every later row in the order is a flagged descendant. */
  lemma LaterHooksFlagged(rows: Rows, nid: Id, order: seq<Id>)
    requires nid in rows && !rows[nid].deleting
    requires Collected(rows, nid, order) && order != [] && order[0] == nid
    ensures forall i :: 0 <= i < |order[1..]| ==>
      order[1..][i] in DeletionCompensated(rows, nid) && DeletionCompensated(rows, nid)[order[1..][i]].deleting
  {
    CompensationFlagsDescendants(rows, nid);
    forall i | 0 <= i < |order[1..]|
      ensures order[1..][i] in DescendantIds(rows, nid)
    {
      assert order[1..][i] == order[i + 1];
      assert order[0] != order[i + 1];
    }
  }
}
