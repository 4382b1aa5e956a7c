/**
  NodeManager: the renumbering engine. Every structural change is a fixed
  sequence of `filter(...).update(...)` calls over one `_tree_id` partition;
  each such call is `Update` below, and each manager method is specified by a
  pure function over the table that composes the same updates.
*/
module Managers {
  import opened Table

  /** How `_move_node` ends: done, refused by the cycle check, or a `get` that found no row. */
  datatype MoveOutcome = Moved | InvalidNodeMove | NodeDoesNotExist | ParentDoesNotExist

  // ---------------------------------------------------------------------
  // get_next_tree_id
  // ---------------------------------------------------------------------

  /** `m` is the largest `_tree_id` among the rows `s`. */
  ghost predicate IsMaxTreeId(rows: Rows, s: set<Id>, m: int)
    requires s <= rows.Keys
  {
    (forall k :: k in s ==> rows[k].treeId <= m) && (exists k :: k in s && rows[k].treeId == m)
  }

  lemma {:induction false} MaxTreeIdExists(rows: Rows, s: set<Id>)
    requires s != {} && s <= rows.Keys
    ensures exists m :: IsMaxTreeId(rows, s, m)
  {
    var k :| k in s;
    if s == {k} {
      assert IsMaxTreeId(rows, s, rows[k].treeId);
    } else {
      MaxTreeIdExists(rows, s - {k});
      var m :| IsMaxTreeId(rows, s - {k}, m);
      if rows[k].treeId <= m {
        assert IsMaxTreeId(rows, s, m);
      } else {
        assert IsMaxTreeId(rows, s, rows[k].treeId);
      }
    }
  }

  /** `(Max('_tree_id') or 0) + 1`. */
  ghost function NextTreeId(rows: Rows): (t: int)
    ensures rows == map[] ==> t == 1
    ensures forall k :: k in rows ==> rows[k].treeId < t
    ensures rows != map[] ==> exists k :: k in rows && rows[k].treeId == t - 1
  {
    if rows.Keys == {} then 1
    else
      MaxTreeIdExists(rows, rows.Keys);
      var m :| IsMaxTreeId(rows, rows.Keys, m);
      m + 1
  }

  /** A tree id that no row uses yet. */
  ghost predicate FreshTreeId(rows: Rows, t: int) {
    forall k :: k in rows ==> rows[k].treeId != t
  }

  // ---------------------------------------------------------------------
  // The table after each manager method
  // ---------------------------------------------------------------------

  function TreeFilter(t: int): Filter { Filter(t, []) }

  /** `_update_edges`: shift `_left` on the rows of `left`, then `_right` on the rows of `right`. */
  function EdgesShifted(rows: Rows, delta: int, left: Filter, right: Filter): (r: Rows)
    ensures r.Keys == rows.Keys
  {
    UpdateRows(UpdateRows(rows, left, AddLeft(delta)), right, AddRight(delta))
  }

  /**
    The common shape of every edge update in the manager: within tree `t`,
    `_left` moves by `delta` where `leftMoves` holds and `_right` where
    `rightMoves` holds; every other column and every other tree is untouched.
  */
  ghost predicate ShiftedIn(rows: Rows, r: Rows, t: int, delta: int, leftMoves: int -> bool, rightMoves: int -> bool) {
    && r.Keys == rows.Keys
    && forall k :: k in rows ==> r[k] == rows[k].(
         left := if rows[k].treeId == t && leftMoves(rows[k].left) then rows[k].left + delta else rows[k].left,
         right := if rows[k].treeId == t && rightMoves(rows[k].right) then rows[k].right + delta else rows[k].right)
  }

  /** `_renumber_source_tree_for_node_insertion`: open a two-wide gap at the new node's `_left`. */
  function NodeGapOpened(rows: Rows, node: Row): (r: Rows)
    ensures r.Keys == rows.Keys
  {
    UpdateRows(
      UpdateRows(rows, Filter(node.treeId, [Bound(Left, Gt, node.left)]), AddLeft(2)),
      Filter(node.treeId, [Bound(Right, Gte, node.left)]), AddRight(2))
  }

  /** `_detach_subtree`: the rows within `nid`'s interval move to tree `newTreeId`. */
  function Detached(rows: Rows, nid: Id, newTreeId: int): (r: Rows)
    requires nid in rows
    ensures r.Keys == rows.Keys
  {
    var node := rows[nid];
    UpdateRows(rows, Filter(node.treeId, [Bound(Left, Gte, node.left), Bound(Right, Lte, node.right)]), SetTreeId(newTreeId))
  }

  /** `(len(get_descendants()) + 1) * 2`: the width the subtree of `nid` occupies. */
  function SubtreeWidth(rows: Rows, nid: Id): int
    requires nid in rows
  {
    (|DescendantIds(rows, nid)| + 1) * 2
  }

  /** `_renumber_source_tree_edges`: close the gap the detached subtree left in tree `t`. */
  function SourceEdgesClosed(rows: Rows, t: int, nid: Id): (r: Rows)
    requires nid in rows
    ensures r.Keys == rows.Keys
  {
    var node := rows[nid];
    EdgesShifted(rows, -SubtreeWidth(rows, nid), Filter(t, [Bound(Left, Gt, node.left)]), Filter(t, [Bound(Right, Gt, node.left)]))
  }

  function DetachedDelta(rows: Rows, parent: Option<Id>, nid: Id): int
    requires nid in rows
    requires parent.Some? ==> parent.value in rows
  {
    var left := if parent.Some? then rows[parent.value].left else 0;
    (left + 1) - rows[nid].left
  }

  /** `_renumber_detached_tree_edges`: translate `nid`'s tree so that `nid` starts just after the parent's `_left`, or at 1. */
  function DetachedEdgesRenumbered(rows: Rows, parent: Option<Id>, nid: Id): (r: Rows)
    requires nid in rows
    requires parent.Some? ==> parent.value in rows
    ensures r.Keys == rows.Keys
  {
    var node := rows[nid];
    EdgesShifted(rows, DetachedDelta(rows, parent, nid),
      Filter(node.treeId, [Bound(Left, Gte, node.left)]), Filter(node.treeId, [Bound(Right, Gt, node.left)]))
  }

  /** `_renumber_source_tree_for_subtree_insertion`: open a gap as wide as `nid`'s subtree just after the parent's `_left`. */
  function SubtreeGapOpened(rows: Rows, parent: Id, nid: Id): (r: Rows)
    requires nid in rows && parent in rows
    ensures r.Keys == rows.Keys
  {
    var p := rows[parent];
    EdgesShifted(rows, SubtreeWidth(rows, nid), Filter(p.treeId, [Bound(Left, Gt, p.left)]), Filter(p.treeId, [Bound(Right, Gte, p.left)]))
  }

  /** `_renumber_source_tree_for_subtree_deletion`: close the gap a deleted subtree leaves behind its right edge. */
  function DeletionGapClosed(rows: Rows, nid: Id): (r: Rows)
    requires nid in rows
    ensures r.Keys == rows.Keys
  {
    var node := rows[nid];
    EdgesShifted(rows, -SubtreeWidth(rows, nid), Filter(node.treeId, [Bound(Left, Gte, node.right)]), Filter(node.treeId, [Bound(Right, Gte, node.right)]))
  }

  /** `_attach_subtree`: `nid`'s tree joins the parent's tree one level below it, and `nid` records the parent. */
  function Attached(rows: Rows, parent: Id, nid: Id): (r: Rows)
    requires nid in rows && parent in rows
    ensures r.Keys == rows.Keys
  {
    var p := rows[parent];
    var node := rows[nid];
    var delta := p.depth + 1 - node.depth;
    var moved := UpdateRows(rows, TreeFilter(node.treeId), SetTreeIdAddDepth(p.treeId, delta));
    var f := moved[nid];
    moved[nid := f.(parent := Some(parent), depth := p.depth + 1, treeId := p.treeId)]
  }

  /**
    `_move_node` once the cycle check has passed. `originalTreeId` is the
    `_tree_id` of the caller's instance, which the source reads before it
    re-fetches the node.
  */
  function MovedRows(rows: Rows, nid: Id, originalTreeId: int, newParent: Option<Id>, newTreeId: int): (r: Rows)
    requires nid in rows && (newParent.Some? ==> newParent.value in rows)
    ensures r.Keys == rows.Keys
  {
    var r1 := Detached(rows, nid, newTreeId);
    var r2 := SourceEdgesClosed(r1, originalTreeId, nid);
    var r3 := DetachedEdgesRenumbered(r2, newParent, nid);
    if newParent.None? then r3
    else
      var r4 := SubtreeGapOpened(r3, newParent.value, nid);
      Attached(r4, newParent.value, nid)
  }

  /**
    `_bifurcate`: move to no parent, then lift the severed tree's depths by
    the depth the caller's instance holds (`instanceTreeId` and
    `instanceDepth` are that instance's `_tree_id` and `_depth`).
  */
  function BifurcatedRows(rows: Rows, nid: Id, instanceTreeId: int, instanceDepth: int, newTreeId: int): (r: Rows)
    requires nid in rows
    ensures r.Keys == rows.Keys
  {
    SeveredDepthsLifted(MovedRows(rows, nid, instanceTreeId, None, newTreeId), nid, instanceDepth)
  }

  /** The depth update `_bifurcate` runs on the severed node's new tree. */
  function SeveredDepthsLifted(rows: Rows, nid: Id, severedDepth: int): (r: Rows)
    requires nid in rows
    ensures r.Keys == rows.Keys
  {
    UpdateRows(rows, TreeFilter(rows[nid].treeId), AddDepth(-severedDepth))
  }

  /** `new_parent in list(node.get_descendants()) + [node]`. */
  predicate CreatesCycle(rows: Rows, nid: Id, newParent: Option<Id>)
    requires nid in rows
  {
    newParent.Some? && (newParent.value == nid || newParent.value in DescendantIds(rows, nid))
  }

  // ---------------------------------------------------------------------
  // What each step does to one row
  // ---------------------------------------------------------------------

  /** `row` with `delta` added to `_left` if `moveLeft` and to `_right` if `moveRight`, provided it belongs to tree `t`. */
  function Shifted(row: Row, t: int, delta: int, moveLeft: bool, moveRight: bool): Row {
    if row.treeId != t then row
    else row.(left := if moveLeft then row.left + delta else row.left,
              right := if moveRight then row.right + delta else row.right)
  }

  /** An `_update_edges` call whose first filter bounds `_left` and whose second bounds `_right`. */
  lemma EdgesShiftedRow(rows: Rows, delta: int, t: int, lb: Bound, rb: Bound, k: Id)
    requires lb.column == Left && rb.column == Right && k in rows
    ensures EdgesShifted(rows, delta, Filter(t, [lb]), Filter(t, [rb]))[k]
         == Shifted(rows[k], t, delta, Holds(lb, rows[k]), Holds(rb, rows[k]))
  {
    MatchesOne(t, lb);
    MatchesOne(t, rb);
  }

  /**
    Insertion widening stays in the node's tree: `_left` grows by 2 exactly
    where it is past the pivot, `_right` exactly where it is at or past it.
  */
  lemma NodeGapOpenedRows(rows: Rows, node: Row)
    ensures forall k :: k in rows ==>
      NodeGapOpened(rows, node)[k] == Shifted(rows[k], node.treeId, 2, rows[k].left > node.left, rows[k].right >= node.left)
  {
    MatchesOne(node.treeId, Bound(Left, Gt, node.left));
    MatchesOne(node.treeId, Bound(Right, Gte, node.left));
  }

  /** Detach moves exactly the rows of `nid`'s subtree to the new tree and changes nothing else. */
  lemma DetachedRows(rows: Rows, nid: Id, newTreeId: int)
    requires nid in rows
    ensures forall k :: k in rows ==>
      Detached(rows, nid, newTreeId)[k] == if k in SubtreeIds(rows, nid) then rows[k].(treeId := newTreeId) else rows[k]
  {
    var node := rows[nid];
    MatchesTwo(node.treeId, Bound(Left, Gte, node.left), Bound(Right, Lte, node.right));
  }

  /** Closing the source gap pulls every edge past the node's old `_left` back by the subtree's width. */
  lemma SourceEdgesClosedRows(rows: Rows, t: int, nid: Id)
    requires nid in rows
    ensures forall k :: k in rows ==>
      SourceEdgesClosed(rows, t, nid)[k]
        == Shifted(rows[k], t, -SubtreeWidth(rows, nid), rows[k].left > rows[nid].left, rows[k].right > rows[nid].left)
  {
    forall k | k in rows
      ensures SourceEdgesClosed(rows, t, nid)[k]
        == Shifted(rows[k], t, -SubtreeWidth(rows, nid), rows[k].left > rows[nid].left, rows[k].right > rows[nid].left)
    {
      EdgesShiftedRow(rows, -SubtreeWidth(rows, nid), t, Bound(Left, Gt, rows[nid].left), Bound(Right, Gt, rows[nid].left), k);
    }
  }

  /**
    Renormalising translates the detached tree so that `nid` starts one past
    the target parent's `_left`, or at 1 when there is no parent.
  */
  lemma DetachedEdgesRenumberedRows(rows: Rows, parent: Option<Id>, nid: Id)
    requires nid in rows
    requires parent.Some? ==> parent.value in rows
    ensures forall k :: k in rows ==>
      DetachedEdgesRenumbered(rows, parent, nid)[k]
        == Shifted(rows[k], rows[nid].treeId, DetachedDelta(rows, parent, nid), rows[k].left >= rows[nid].left, rows[k].right > rows[nid].left)
    ensures DetachedEdgesRenumbered(rows, parent, nid)[nid].left == if parent.Some? then rows[parent.value].left + 1 else 1
  {
    var node := rows[nid];
    forall k | k in rows
      ensures DetachedEdgesRenumbered(rows, parent, nid)[k]
        == Shifted(rows[k], node.treeId, DetachedDelta(rows, parent, nid), rows[k].left >= node.left, rows[k].right > node.left)
    {
      EdgesShiftedRow(rows, DetachedDelta(rows, parent, nid), node.treeId, Bound(Left, Gte, node.left), Bound(Right, Gt, node.left), k);
    }
  }

  /** Opening the destination gap widens the parent's tree by the subtree's width just after the parent's `_left`. */
  lemma SubtreeGapOpenedRows(rows: Rows, parent: Id, nid: Id)
    requires nid in rows && parent in rows
    ensures forall k :: k in rows ==>
      SubtreeGapOpened(rows, parent, nid)[k]
        == Shifted(rows[k], rows[parent].treeId, SubtreeWidth(rows, nid), rows[k].left > rows[parent].left, rows[k].right >= rows[parent].left)
  {
    var p := rows[parent];
    forall k | k in rows
      ensures SubtreeGapOpened(rows, parent, nid)[k]
        == Shifted(rows[k], p.treeId, SubtreeWidth(rows, nid), rows[k].left > p.left, rows[k].right >= p.left)
    {
      EdgesShiftedRow(rows, SubtreeWidth(rows, nid), p.treeId, Bound(Left, Gt, p.left), Bound(Right, Gte, p.left), k);
    }
  }

  /** Delete compensation pulls every edge at or past the node's `_right` back by the subtree's width. */
  lemma DeletionGapClosedRows(rows: Rows, nid: Id)
    requires nid in rows
    ensures forall k :: k in rows ==>
      DeletionGapClosed(rows, nid)[k]
        == Shifted(rows[k], rows[nid].treeId, -SubtreeWidth(rows, nid), rows[k].left >= rows[nid].right, rows[k].right >= rows[nid].right)
  {
    var node := rows[nid];
    forall k | k in rows
      ensures DeletionGapClosed(rows, nid)[k]
        == Shifted(rows[k], node.treeId, -SubtreeWidth(rows, nid), rows[k].left >= node.right, rows[k].right >= node.right)
    {
      EdgesShiftedRow(rows, -SubtreeWidth(rows, nid), node.treeId, Bound(Left, Gte, node.right), Bound(Right, Gte, node.right), k);
    }
  }

  /**
    Attaching moves `nid`'s whole tree into the parent's tree, shifting every
    depth by `parent.depth + 1 - node.depth`; `nid` records the parent.
  */
  lemma AttachedRows(rows: Rows, parent: Id, nid: Id)
    requires nid in rows && parent in rows
    ensures Attached(rows, parent, nid)[nid]
         == rows[nid].(parent := Some(parent), treeId := rows[parent].treeId, depth := rows[parent].depth + 1)
    ensures forall k :: k in rows && k != nid ==>
      Attached(rows, parent, nid)[k]
        == if rows[k].treeId == rows[nid].treeId
           then rows[k].(treeId := rows[parent].treeId, depth := rows[k].depth + rows[parent].depth + 1 - rows[nid].depth)
           else rows[k]
  {
    MatchesTree(rows[nid].treeId);
  }

  // ---------------------------------------------------------------------
  // The manager
  // ---------------------------------------------------------------------

  class NodeManager {
    /** The node table, keyed by primary key. */
    var rows: Rows

    constructor ()
      ensures rows == map[]
    {
      rows := map[];
    }

    /** `filter(f).update(c)`, as one set-based statement over the current rows. */
    method Update(f: Filter, c: Change)
      modifies this
      ensures rows == UpdateRows(old(rows), f, c)
    {
      var updated := rows;
      var pending := rows.Keys;
      while pending != {}
        invariant pending <= rows.Keys
        invariant updated.Keys == rows.Keys
        invariant forall k :: k in rows ==>
          updated[k] == (if k in pending || !Matches(f, rows[k]) then rows[k] else Apply(c, rows[k]))
        decreases pending
      {
        var k :| k in pending;
        if Matches(f, rows[k]) {
          updated := updated[k := Apply(c, rows[k])];
        }
        pending := pending - {k};
      }
      rows := updated;
    }

    /** `get_next_tree_id`. */
    method GetNextTreeId() returns (t: int)
      ensures t == NextTreeId(rows)
      ensures rows == map[] ==> t == 1
      ensures forall k :: k in rows ==> rows[k].treeId < t
      ensures rows != map[] ==> exists k :: k in rows && rows[k].treeId == t - 1
    {
      var max: Option<int> := None;
      var pending := rows.Keys;
      while pending != {}
        invariant pending <= rows.Keys
        invariant max.None? <==> pending == rows.Keys
        invariant max.Some? ==> IsMaxTreeId(rows, rows.Keys - pending, max.value)
        decreases pending
      {
        var k :| k in pending;
        if max.None? || rows[k].treeId > max.value {
          max := Some(rows[k].treeId);
        }
        pending := pending - {k};
      }
      if max.None? {
        assert rows.Keys == {};
        t := 1;
      } else {
        t := max.value + 1;
        if rows.Keys == {} {
          assert false;
        }
      }
    }

    /** `len(self.get(pk=nid).get_descendants())`. */
    method CountDescendants(nid: Id) returns (n: nat)
      requires nid in rows
      ensures n == |DescendantIds(rows, nid)|
    {
      n := 0;
      var pending := rows.Keys;
      ghost var counted: set<Id> := {};
      while pending != {}
        invariant pending <= rows.Keys
        invariant counted == set j | j in rows && j !in pending && Inside(rows[j], rows[nid])
        invariant n == |counted|
        decreases pending
      {
        var k :| k in pending;
        if Inside(rows[k], rows[nid]) {
          counted := counted + {k};
          n := n + 1;
        }
        pending := pending - {k};
      }
      assert counted == DescendantIds(rows, nid);
    }

    method UpdateEdges(delta: int, left: Filter, right: Filter)
      modifies this
      ensures rows == EdgesShifted(old(rows), delta, left, right)
    {
      Update(left, AddLeft(delta));
      Update(right, AddRight(delta));
    }

    /** `_renumber_source_tree_for_node_insertion(node)` for a node not yet saved. */
    method RenumberSourceTreeForNodeInsertion(node: Row)
      modifies this
      ensures rows == NodeGapOpened(old(rows), node)
    {
      Update(Filter(node.treeId, [Bound(Left, Gt, node.left)]), AddLeft(2));
      Update(Filter(node.treeId, [Bound(Right, Gte, node.left)]), AddRight(2));
    }

    method DetachSubtree(nid: Id)
      requires nid in rows
      modifies this
      ensures rows == Detached(old(rows), nid, NextTreeId(old(rows)))
    {
      var node := rows[nid];
      var newTreeId := GetNextTreeId();
      Update(Filter(node.treeId, [Bound(Left, Gte, node.left), Bound(Right, Lte, node.right)]), SetTreeId(newTreeId));
    }

    method RenumberSourceTreeEdges(treeId: int, nid: Id)
      requires nid in rows
      modifies this
      ensures rows == SourceEdgesClosed(old(rows), treeId, nid)
    {
      var descendants := CountDescendants(nid);
      var delta := (descendants as int + 1) * -2;
      var node := rows[nid];
      UpdateEdges(delta, Filter(treeId, [Bound(Left, Gt, node.left)]), Filter(treeId, [Bound(Right, Gt, node.left)]));
    }

    method RenumberDetachedTreeEdges(parent: Option<Id>, nid: Id)
      requires nid in rows
      requires parent.Some? ==> parent.value in rows
      modifies this
      ensures rows == DetachedEdgesRenumbered(old(rows), parent, nid)
    {
      var left := if parent.Some? then rows[parent.value].left else 0;
      var node := rows[nid];
      var delta := (left + 1) - node.left;
      UpdateEdges(delta, Filter(node.treeId, [Bound(Left, Gte, node.left)]), Filter(node.treeId, [Bound(Right, Gt, node.left)]));
    }

    method RenumberSourceTreeForSubtreeInsertion(parent: Id, nid: Id)
      requires nid in rows && parent in rows
      modifies this
      ensures rows == SubtreeGapOpened(old(rows), parent, nid)
    {
      var descendants := CountDescendants(nid);
      var delta := (descendants + 1) * 2;
      var p := rows[parent];
      UpdateEdges(delta, Filter(p.treeId, [Bound(Left, Gt, p.left)]), Filter(p.treeId, [Bound(Right, Gte, p.left)]));
    }

    method RenumberSourceTreeForSubtreeDeletion(nid: Id)
      requires nid in rows
      modifies this
      ensures rows == DeletionGapClosed(old(rows), nid)
    {
      var descendants := CountDescendants(nid);
      var delta := (descendants as int + 1) * -2;
      var node := rows[nid];
      UpdateEdges(delta, Filter(node.treeId, [Bound(Left, Gte, node.right)]), Filter(node.treeId, [Bound(Right, Gte, node.right)]));
    }

    method AttachSubtree(parent: Id, nid: Id)
      requires nid in rows && parent in rows
      modifies this
      ensures rows == Attached(old(rows), parent, nid)
    {
      var p := rows[parent];
      var node := rows[nid];
      var delta := p.depth + 1 - node.depth;
      Update(TreeFilter(node.treeId), SetTreeIdAddDepth(p.treeId, delta));
      var f := rows[nid];
      f := f.(parent := Some(parent), depth := p.depth + 1, treeId := p.treeId);
      rows := rows[nid := f];
    }

    /**
      `_move_node`: refuse a move into the node's own subtree, else detach,
      close, renormalise, open, attach. The node is fetched before anything
      changes; the new parent only when renormalising, so a parent without a
      row leaves the table detached and closed.
    */
    method MoveNode(nid: Id, originalTreeId: int, newParent: Option<Id>) returns (outcome: MoveOutcome)
      modifies this
      ensures outcome == NodeDoesNotExist <==> nid !in old(rows)
      ensures outcome == InvalidNodeMove <==> nid in old(rows) && CreatesCycle(old(rows), nid, newParent)
      ensures outcome == ParentDoesNotExist <==> nid in old(rows) && newParent.Some? && newParent.value !in old(rows)
      ensures outcome == NodeDoesNotExist || outcome == InvalidNodeMove ==> rows == old(rows)
      ensures outcome == ParentDoesNotExist ==>
        rows == SourceEdgesClosed(Detached(old(rows), nid, NextTreeId(old(rows))), originalTreeId, nid)
      ensures outcome == Moved ==> rows == MovedRows(old(rows), nid, originalTreeId, newParent, NextTreeId(old(rows)))
    {
      if nid !in rows {
        return NodeDoesNotExist;
      }
      if newParent.Some? && (newParent.value == nid || newParent.value in DescendantIds(rows, nid)) {
        return InvalidNodeMove;
      }
      DetachSubtree(nid);
      RenumberSourceTreeEdges(originalTreeId, nid);
      if newParent.Some? && newParent.value !in rows {
        return ParentDoesNotExist;
      }
      RenumberDetachedTreeEdges(newParent, nid);
      if newParent.Some? {
        RenumberSourceTreeForSubtreeInsertion(newParent.value, nid);
        AttachSubtree(newParent.value, nid);
      }
      outcome := Moved;
    }

    /** `_bifurcate`: move to no parent, then lift the depths of the severed tree. */
    method Bifurcate(nid: Id, instanceTreeId: int, instanceDepth: int) returns (outcome: MoveOutcome)
      modifies this
      ensures outcome == NodeDoesNotExist <==> nid !in old(rows)
      ensures outcome == NodeDoesNotExist ==> rows == old(rows)
      ensures outcome != NodeDoesNotExist ==>
        outcome == Moved && rows == BifurcatedRows(old(rows), nid, instanceTreeId, instanceDepth, NextTreeId(old(rows)))
    {
      outcome := MoveNode(nid, instanceTreeId, None);
      if outcome == NodeDoesNotExist {
        return;
      }
      LiftSeveredDepths(nid, instanceDepth);
    }

    /** The `_depth` update that closes `_bifurcate`. */
    method LiftSeveredDepths(nid: Id, severedDepth: int)
      requires nid in rows
      modifies this
      ensures rows == SeveredDepthsLifted(old(rows), nid, severedDepth)
    {
      var node := rows[nid];
      Update(TreeFilter(node.treeId), AddDepth(-severedDepth));
    }
  }
}
