/**
  What `_move_node` and `_bifurcate` leave behind, row by row, when the
  caller's instance is fresh: the rows outside the moved subtree close the
  gap it leaves and open one at the new parent, and the subtree is translated
  into that gap, or to a fresh tree of its own starting at 1.
*/
module MoveSteps {
  import opened Table
  import opened Managers
  import opened Invariant

  /** The premises the steps share: a shaped table, a sized node, and a tree id above every stored one. */
  ghost predicate MoveSetting(rows: Rows, nid: Id, newTreeId: int) {
    && Shaped(rows) && nid in rows
    && rows[nid].right - rows[nid].left + 1 == 2 * |SubtreeIds(rows, nid)|
    && forall k :: k in rows ==> rows[k].treeId < newTreeId
  }

  /** The width of `n`'s subtree under the invariant. */
  function Width(n: Row): int {
    n.right - n.left + 1
  }

  /** A row outside the moved subtree once the source gap is closed. */
  function HostClosed(row: Row, n: Row): Row {
    if row.treeId == n.treeId
    then row.(left := Closed(row.left, n.right, Width(n)), right := Closed(row.right, n.right, Width(n)))
    else row
  }

  /** A row of the moved subtree once it is translated by `d` in tree `t`. */
  function Translated(row: Row, t: int, d: int): Row {
    row.(treeId := t, left := row.left + d, right := row.right + d)
  }

  /** A row outside the moved subtree once a gap of width `w` opens at `pivot` in tree `t`. */
  function HostOpened(row: Row, t: int, pivot: int, w: int): Row {
    if row.treeId == t
    then row.(left := Opened(row.left, pivot, w), right := Opened(row.right, pivot, w))
    else row
  }

  /** A row of the moved subtree once it joins tree `t`: translated by `d`, its depth shifted by `dd`. */
  function Grafted(row: Row, t: int, d: int, dd: int): Row {
    Translated(row, t, d).(depth := row.depth + dd)
  }

  /** Where the parent's `_left` sits once the source gap is closed. */
  function PivotAfterClose(rows: Rows, nid: Id, parent: Option<Id>): int
    requires nid in rows && (parent.Some? ==> parent.value in rows)
  {
    if parent.Some? then HostClosed(rows[parent.value], rows[nid]).left else 0
  }

  // ---------------------------------------------------------------------
  // One step at a time
  // ---------------------------------------------------------------------


  /**
    If the node's new tree holds exactly the subtree, each row of it moved the
    same way, the node keeps its descendants and so the width the manager
    computes.
  */
  lemma WidthFollows(rows: Rows, r: Rows, nid: Id, t: int, d: int)
    requires MoveSetting(rows, nid, t) && r.Keys == rows.Keys
    requires forall k :: k in rows ==> (r[k].treeId == t <==> k in SubtreeIds(rows, nid))
    requires forall k :: k in SubtreeIds(rows, nid) ==> r[k] == Translated(rows[k], t, d)
    ensures DescendantIds(r, nid) == DescendantIds(rows, nid)
    ensures SubtreeWidth(r, nid) == Width(rows[nid])
  {
    assert nid in SubtreeIds(rows, nid);
    forall j
      ensures j in DescendantIds(r, nid) <==> j in DescendantIds(rows, nid)
    {
    }
    WidthIsSpan(rows, nid);
  }

  /** After closing the source gap (with the instance's tree id fresh). */
  lemma CloseStep(rows: Rows, nid: Id, newTreeId: int, k: Id)
    requires MoveSetting(rows, nid, newTreeId) && k in rows
    ensures var r1 := Detached(rows, nid, newTreeId);
      SourceEdgesClosed(r1, rows[nid].treeId, nid)[k]
        == if k in SubtreeIds(rows, nid) then rows[k].(treeId := newTreeId) else HostClosed(rows[k], rows[nid])
  {
    var n := rows[nid];
    var r1 := Detached(rows, nid, newTreeId);
    DetachedRows(rows, nid, newTreeId);
    assert nid in SubtreeIds(rows, nid);
    WidthFollows(rows, r1, nid, newTreeId, 0);
    SourceEdgesClosedRows(r1, n.treeId, nid);
    if k !in SubtreeIds(rows, nid) && rows[k].treeId == n.treeId {
      OutsideSubtree(rows, nid, k);
    }
  }

  /** The table after detaching and closing. */
  function ClosedSource(rows: Rows, nid: Id, newTreeId: int): (r: Rows)
    requires nid in rows
    ensures r.Keys == rows.Keys
  {
    SourceEdgesClosed(Detached(rows, nid, newTreeId), rows[nid].treeId, nid)
  }

  /** After closing, the node sits in the new tree where it was, and the translation puts it just after the pivot. */
  lemma ClosedNode(rows: Rows, nid: Id, newTreeId: int, parent: Option<Id>)
    requires MoveSetting(rows, nid, newTreeId)
    requires parent.Some? ==> parent.value in rows && parent.value !in SubtreeIds(rows, nid)
    ensures var r2 := ClosedSource(rows, nid, newTreeId);
      && r2[nid] == rows[nid].(treeId := newTreeId)
      && DetachedDelta(r2, parent, nid) == PivotAfterClose(rows, nid, parent) + 1 - rows[nid].left
  {
    assert nid in SubtreeIds(rows, nid);
    CloseStep(rows, nid, newTreeId, nid);
    if parent.Some? {
      CloseStep(rows, nid, newTreeId, parent.value);
    }
  }

  /**
    Renormalising any table whose node sits at `n`'s interval in tree `t`:
    a row of the subtree, moved to `t` and starting inside that interval, is
    translated by `d`; a row of another tree stays.
  */
  lemma RenumberedAt(r: Rows, parent: Option<Id>, nid: Id, k: Id, n: Row, t: int, inSubtree: bool, row: Row, d: int)
    requires nid in r && k in r && (parent.Some? ==> parent.value in r)
    requires r[nid] == n.(treeId := t) && DetachedDelta(r, parent, nid) == d
    requires inSubtree ==> r[k] == row.(treeId := t) && n.left <= row.left < row.right
    requires !inSubtree ==> r[k] == row && row.treeId != t
    ensures DetachedEdgesRenumbered(r, parent, nid)[k] == if inSubtree then Translated(row, t, d) else row
  {
    DetachedEdgesRenumberedRows(r, parent, nid);
  }

  /** What renormalising reads from the closed table. */
  lemma RenumberInputs(rows: Rows, nid: Id, newTreeId: int, parent: Option<Id>, k: Id)
    requires MoveSetting(rows, nid, newTreeId) && k in rows
    requires parent.Some? ==> parent.value in rows && parent.value !in SubtreeIds(rows, nid)
    ensures var n := rows[nid]; var r2 := ClosedSource(rows, nid, newTreeId);
      && r2[nid] == n.(treeId := newTreeId)
      && DetachedDelta(r2, parent, nid) == PivotAfterClose(rows, nid, parent) + 1 - n.left
      && (k in SubtreeIds(rows, nid) ==> r2[k] == rows[k].(treeId := newTreeId) && n.left <= rows[k].left < rows[k].right)
      && (k !in SubtreeIds(rows, nid) ==> r2[k] == HostClosed(rows[k], n) && HostClosed(rows[k], n).treeId != newTreeId)
  {
    CloseStep(rows, nid, newTreeId, k);
    ClosedNode(rows, nid, newTreeId, parent);
    if k in SubtreeIds(rows, nid) {
      assert Ordered(rows[k]);
    }
  }

  /** After renormalising: the subtree is translated so the node starts just after the pivot. */
  lemma RenumberStep(rows: Rows, nid: Id, newTreeId: int, parent: Option<Id>, k: Id)
    requires MoveSetting(rows, nid, newTreeId) && k in rows
    requires parent.Some? ==> parent.value in rows && parent.value !in SubtreeIds(rows, nid)
    ensures var r2 := ClosedSource(rows, nid, newTreeId);
      DetachedEdgesRenumbered(r2, parent, nid)[k]
        == if k in SubtreeIds(rows, nid)
           then Translated(rows[k], newTreeId, PivotAfterClose(rows, nid, parent) + 1 - rows[nid].left)
           else HostClosed(rows[k], rows[nid])
  {
    var inSubtree := k in SubtreeIds(rows, nid);
    RenumberInputs(rows, nid, newTreeId, parent, k);
    RenumberedAt(ClosedSource(rows, nid, newTreeId), parent, nid, k, rows[nid], newTreeId, inSubtree,
      if inSubtree then rows[k] else HostClosed(rows[k], rows[nid]),
      PivotAfterClose(rows, nid, parent) + 1 - rows[nid].left);
  }

  /** The table after detaching, closing and renormalising: what `_move_node` leaves without a parent. */
  function RenumberedDetached(rows: Rows, nid: Id, newTreeId: int, parent: Option<Id>): (r: Rows)
    requires nid in rows && (parent.Some? ==> parent.value in rows)
    ensures r.Keys == rows.Keys
  {
    DetachedEdgesRenumbered(ClosedSource(rows, nid, newTreeId), parent, nid)
  }

  /** Once renormalised, the node's subtree still has the width it had. */
  lemma RenumberedWidth(rows: Rows, nid: Id, newTreeId: int, parent: Option<Id>)
    requires MoveSetting(rows, nid, newTreeId)
    requires parent.Some? ==> parent.value in rows && parent.value !in SubtreeIds(rows, nid)
    ensures SubtreeWidth(RenumberedDetached(rows, nid, newTreeId, parent), nid) == Width(rows[nid])
  {
    var r3 := RenumberedDetached(rows, nid, newTreeId, parent);
    var d := PivotAfterClose(rows, nid, parent) + 1 - rows[nid].left;
    forall k | k in rows
      ensures r3[k].treeId == newTreeId <==> k in SubtreeIds(rows, nid)
      ensures k in SubtreeIds(rows, nid) ==> r3[k] == Translated(rows[k], newTreeId, d)
    {
      RenumberStep(rows, nid, newTreeId, parent, k);
    }
    WidthFollows(rows, r3, nid, newTreeId, d);
  }

  /** A host endpoint other than the parent's `_left` never equals the pivot the gap opens at. */
  lemma PivotFree(rows: Rows, nid: Id, parent: Id, k: Id)
    requires Shaped(rows) && nid in rows && parent in rows && k in rows
    requires parent !in SubtreeIds(rows, nid) && k !in SubtreeIds(rows, nid)
    requires rows[k].treeId == rows[parent].treeId
    ensures var n := rows[nid];
      HostClosed(rows[k], n).right != HostClosed(rows[parent], n).left
  {
    var n := rows[nid];
    var w := Width(n);
    if n.treeId == rows[k].treeId {
      OutsideSubtree(rows, nid, k);
      OutsideSubtree(rows, nid, parent);
      if k == parent {
        ClosedKeepsOrder(rows[k].left, rows[k].right, n.left, n.right);
      } else {
        EndpointsDistinct(rows, k, parent);
        ClosedKeepsOrder(rows[k].right, rows[parent].left, n.left, n.right);
        ClosedKeepsOrder(rows[parent].left, rows[k].right, n.left, n.right);
      }
    } else if k != parent {
      EndpointsDistinct(rows, k, parent);
    }
  }

  /** The table after opening the gap at the new parent. */
  function OpenedTarget(rows: Rows, nid: Id, newTreeId: int, parent: Id): (r: Rows)
    requires nid in rows && parent in rows
    ensures r.Keys == rows.Keys
  {
    SubtreeGapOpened(RenumberedDetached(rows, nid, newTreeId, Some(parent)), parent, nid)
  }


  /**
    Opening the gap on any table where the subtree has width `w` and no row
    of the parent's tree ends exactly at the parent's `_left`: a row of that
    tree moves its endpoints past the parent's `_left` on by `w`.
  */
  lemma GapOpenedAt(r: Rows, nid: Id, parent: Id, k: Id, w: int)
    requires nid in r && parent in r && k in r
    requires SubtreeWidth(r, nid) == w
    requires r[k].treeId == r[parent].treeId ==> r[k].right != r[parent].left
    ensures SubtreeGapOpened(r, parent, nid)[k] == HostOpened(r[k], r[parent].treeId, r[parent].left + 1, w)
  {
    SubtreeGapOpenedRows(r, parent, nid);
  }

  /** What the gap opening reads from the renormalised table. */
  lemma OpenStepInputs(rows: Rows, nid: Id, newTreeId: int, parent: Id, k: Id)
    requires MoveSetting(rows, nid, newTreeId) && k in rows
    requires parent in rows && parent !in SubtreeIds(rows, nid)
    ensures var n := rows[nid]; var r3 := RenumberedDetached(rows, nid, newTreeId, Some(parent));
      && r3[k] == (if k in SubtreeIds(rows, nid)
                   then Translated(rows[k], newTreeId, PivotAfterClose(rows, nid, Some(parent)) + 1 - n.left)
                   else HostClosed(rows[k], n))
      && r3[parent] == HostClosed(rows[parent], n)
      && SubtreeWidth(r3, nid) == Width(n)
      && (r3[k].treeId == r3[parent].treeId ==> r3[k].right != r3[parent].left)
  {
    RenumberStep(rows, nid, newTreeId, Some(parent), k);
    RenumberStep(rows, nid, newTreeId, Some(parent), parent);
    RenumberedWidth(rows, nid, newTreeId, Some(parent));
    if k !in SubtreeIds(rows, nid) && rows[k].treeId == rows[parent].treeId {
      PivotFree(rows, nid, parent, k);
    }
  }

  /** After opening the gap: the hosts of the parent's tree make room just after the parent's `_left`. */
  lemma OpenStep(rows: Rows, nid: Id, newTreeId: int, parent: Id, k: Id)
    requires MoveSetting(rows, nid, newTreeId) && k in rows
    requires parent in rows && parent !in SubtreeIds(rows, nid)
    ensures var n := rows[nid]; var pl := PivotAfterClose(rows, nid, Some(parent));
      OpenedTarget(rows, nid, newTreeId, parent)[k]
        == if k in SubtreeIds(rows, nid)
           then Translated(rows[k], newTreeId, pl + 1 - n.left)
           else HostOpened(HostClosed(rows[k], n), rows[parent].treeId, pl + 1, Width(n))
  {
    OpenStepInputs(rows, nid, newTreeId, parent, k);
    GapOpenedAt(RenumberedDetached(rows, nid, newTreeId, Some(parent)), nid, parent, k, Width(rows[nid]));
  }

  /** The table a move under `parent` leaves, as the last step builds it from the opened table. */
  lemma MovedUnderParent(rows: Rows, nid: Id, newTreeId: int, parent: Id)
    requires nid in rows && parent in rows
    ensures MovedRows(rows, nid, rows[nid].treeId, Some(parent), newTreeId)
         == Attached(OpenedTarget(rows, nid, newTreeId, parent), parent, nid)
  {
  }


  /** The opened table at a host row and at the node. */
  lemma OpenedAtHost(rows: Rows, nid: Id, newTreeId: int, parent: Id, k: Id)
    requires MoveSetting(rows, nid, newTreeId) && k in rows && k !in SubtreeIds(rows, nid)
    requires parent in rows && parent !in SubtreeIds(rows, nid)
    ensures var r4 := OpenedTarget(rows, nid, newTreeId, parent);
      && r4[k] == HostOpened(HostClosed(rows[k], rows[nid]), rows[parent].treeId, PivotAfterClose(rows, nid, Some(parent)) + 1, Width(rows[nid]))
      && r4[k].treeId != r4[nid].treeId && k != nid
  {
    assert nid in SubtreeIds(rows, nid);
    OpenStep(rows, nid, newTreeId, parent, k);
    OpenStep(rows, nid, newTreeId, parent, nid);
  }

  /** Attaching leaves every row outside the node's tree alone. */
  lemma AttachedHostRow(r: Rows, parent: Id, nid: Id, k: Id)
    requires nid in r && parent in r && k in r && k != nid
    requires r[k].treeId != r[nid].treeId
    ensures Attached(r, parent, nid)[k] == r[k]
  {
    AttachedRows(r, parent, nid);
  }

  /** A host row of a move under a parent. */
  lemma MovedHostRow(rows: Rows, nid: Id, newTreeId: int, parent: Id, k: Id)
    requires MoveSetting(rows, nid, newTreeId) && k in rows && k !in SubtreeIds(rows, nid)
    requires parent in rows && parent !in SubtreeIds(rows, nid)
    ensures var n := rows[nid];
      MovedRows(rows, nid, n.treeId, Some(parent), newTreeId)[k]
        == HostOpened(HostClosed(rows[k], n), rows[parent].treeId, PivotAfterClose(rows, nid, Some(parent)) + 1, Width(n))
  {
    OpenedAtHost(rows, nid, newTreeId, parent, k);
    AttachedHostRow(OpenedTarget(rows, nid, newTreeId, parent), parent, nid, k);
    MovedUnderParent(rows, nid, newTreeId, parent);
  }

  /** The opened table, at the three rows the attach step reads. */
  lemma OpenedAtAttach(rows: Rows, nid: Id, newTreeId: int, parent: Id, k: Id, d: int)
    requires MoveSetting(rows, nid, newTreeId) && k in SubtreeIds(rows, nid)
    requires parent in rows && parent !in SubtreeIds(rows, nid)
    requires d == PivotAfterClose(rows, nid, Some(parent)) + 1 - rows[nid].left
    ensures var r4 := OpenedTarget(rows, nid, newTreeId, parent);
      && r4[k] == Translated(rows[k], newTreeId, d)
      && r4[nid] == Translated(rows[nid], newTreeId, d)
      && r4[parent].treeId == rows[parent].treeId && r4[parent].depth == rows[parent].depth
      && parent != nid
  {
    assert nid in SubtreeIds(rows, nid);
    OpenStep(rows, nid, newTreeId, parent, k);
    OpenStep(rows, nid, newTreeId, parent, nid);
    OpenStep(rows, nid, newTreeId, parent, parent);
  }

  /** Attaching a subtree row that was translated by `d` into the detached tree. */
  lemma AttachedSubtreeRow(r: Rows, rows: Rows, nid: Id, parent: Id, k: Id, t: int, d: int)
    requires nid in rows && parent in rows && k in rows && parent != nid
    requires nid in r && parent in r && k in r
    requires r[k] == Translated(rows[k], t, d) && r[nid] == Translated(rows[nid], t, d)
    requires r[parent].treeId == rows[parent].treeId && r[parent].depth == rows[parent].depth
    ensures var g := Grafted(rows[k], rows[parent].treeId, d, rows[parent].depth + 1 - rows[nid].depth);
      Attached(r, parent, nid)[k] == if k == nid then g.(parent := Some(parent)) else g
  {
    AttachedRows(r, parent, nid);
  }

  /** A subtree row of a move under a parent, the node included. */
  lemma MovedSubtreeRow(rows: Rows, nid: Id, newTreeId: int, parent: Id, k: Id, d: int)
    requires MoveSetting(rows, nid, newTreeId) && k in SubtreeIds(rows, nid)
    requires parent in rows && parent !in SubtreeIds(rows, nid)
    requires d == PivotAfterClose(rows, nid, Some(parent)) + 1 - rows[nid].left
    ensures var g := Grafted(rows[k], rows[parent].treeId, d, rows[parent].depth + 1 - rows[nid].depth);
      MovedRows(rows, nid, rows[nid].treeId, Some(parent), newTreeId)[k]
        == if k == nid then g.(parent := Some(parent)) else g
  {
    OpenedAtAttach(rows, nid, newTreeId, parent, k, d);
    AttachedSubtreeRow(OpenedTarget(rows, nid, newTreeId, parent), rows, nid, parent, k, newTreeId, d);
    MovedUnderParent(rows, nid, newTreeId, parent);
  }

  /**
    `_move_node` under a parent, for a fresh instance, row by row: the hosts
    close the source gap and open one after the parent's `_left`; the subtree
    is translated into it, joins the parent's tree one level below the parent,
    and the node records the parent.
  */
  lemma MovedRow(rows: Rows, nid: Id, newTreeId: int, parent: Id, k: Id)
    requires MoveSetting(rows, nid, newTreeId) && k in rows
    requires parent in rows && parent !in SubtreeIds(rows, nid)
    ensures var n := rows[nid]; var p := rows[parent];
      var pl := PivotAfterClose(rows, nid, Some(parent));
      var b := MovedRows(rows, nid, n.treeId, Some(parent), newTreeId);
      b[k] == if k == nid then Grafted(n, p.treeId, pl + 1 - n.left, p.depth + 1 - n.depth).(parent := Some(parent))
              else if k in SubtreeIds(rows, nid) then Grafted(rows[k], p.treeId, pl + 1 - n.left, p.depth + 1 - n.depth)
              else HostOpened(HostClosed(rows[k], n), p.treeId, pl + 1, Width(n))
  {
    assert nid in SubtreeIds(rows, nid);
    if k in SubtreeIds(rows, nid) {
      MovedSubtreeRow(rows, nid, newTreeId, parent, k, PivotAfterClose(rows, nid, Some(parent)) + 1 - rows[nid].left);
    } else {
      MovedHostRow(rows, nid, newTreeId, parent, k);
    }
  }

  /**
    `_move_node` to no parent, for a fresh instance, row by row: the hosts close
    the source gap and the subtree becomes a tree of its own starting at 1,
    its depths untouched.
  */
  lemma SeveredRow(rows: Rows, nid: Id, newTreeId: int, k: Id)
    requires MoveSetting(rows, nid, newTreeId) && k in rows
    ensures var n := rows[nid];
      var b := MovedRows(rows, nid, n.treeId, None, newTreeId);
      b[k] == if k in SubtreeIds(rows, nid) then Translated(rows[k], newTreeId, 1 - n.left)
              else HostClosed(rows[k], n)
  {
    RenumberStep(rows, nid, newTreeId, None, k);
  }

  /** The severed table at a row and at the node. */
  lemma SeveredAt(rows: Rows, nid: Id, newTreeId: int, k: Id)
    requires MoveSetting(rows, nid, newTreeId) && k in rows
    ensures var n := rows[nid]; var m := MovedRows(rows, nid, n.treeId, None, newTreeId);
      && m[k] == (if k in SubtreeIds(rows, nid) then Translated(rows[k], newTreeId, 1 - n.left) else HostClosed(rows[k], n))
      && m[nid].treeId == newTreeId
      && (m[k].treeId == newTreeId <==> k in SubtreeIds(rows, nid))
  {
    assert nid in SubtreeIds(rows, nid);
    SeveredRow(rows, nid, newTreeId, k);
    SeveredRow(rows, nid, newTreeId, nid);
  }

  /** `_bifurcate` for a fresh instance, row by row: as `SeveredRow`, with the subtree's depths lowered by the node's. */
  lemma BifurcatedRow(rows: Rows, nid: Id, newTreeId: int, k: Id)
    requires MoveSetting(rows, nid, newTreeId) && k in rows
    ensures var n := rows[nid];
      var b := BifurcatedRows(rows, nid, n.treeId, n.depth, newTreeId);
      b[k] == if k in SubtreeIds(rows, nid) then Grafted(rows[k], newTreeId, 1 - n.left, -n.depth)
              else HostClosed(rows[k], n)
  {
    var n := rows[nid];
    SeveredAt(rows, nid, newTreeId, k);
    LiftedRow(MovedRows(rows, nid, n.treeId, None, newTreeId), nid, n.depth, k);
  }

  /** One row of the depth update `_bifurcate` ends with. */
  lemma LiftedRow(rows: Rows, nid: Id, severedDepth: int, k: Id)
    requires nid in rows && k in rows
    ensures SeveredDepthsLifted(rows, nid, severedDepth)[k]
         == if rows[k].treeId == rows[nid].treeId then rows[k].(depth := rows[k].depth - severedDepth) else rows[k]
  {
    MatchesTree(rows[nid].treeId);
  }
}
