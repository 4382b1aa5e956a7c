/**
  Saving a new child keeps the invariant when the child is placed in its
  parent's tree: every endpoint at or past the parent's old `_right` moves on
  by 2, the child takes the two freed slots, and it becomes a descendant of
  its parent and of nothing else that was not already enclosing the parent.
*/
module InsertionProof {
  import opened Table
  import opened Managers
  import opened Signals
  import opened Invariant

  /** The insertion of `row` under `parent`, with the tree id read from the stored parent. */
  function InsertedUnderParent(rows: Rows, row: Row, parent: Id, nid: Id): (r: Rows)
    requires parent in rows
    ensures r.Keys == rows.Keys + {nid}
    ensures r[nid].treeId == rows[parent].treeId
  {
    InsertedRows(rows, row.(treeId := rows[parent].treeId), parent, nid)
  }

  /** The premises every step below shares: a shaped table, a stored parent, a fresh key. */
  ghost predicate InsertionSetting(rows: Rows, row: Row, parent: Id, nid: Id) {
    && Shaped(rows) && parent in rows && nid !in rows
    && row.treeId == rows[parent].treeId
  }

  /** An old row after the insertion, in closed form: its endpoints pass through `Opened` in the parent's tree. */
  lemma OldRow(rows: Rows, row: Row, parent: Id, nid: Id, k: Id)
    requires InsertionSetting(rows, row, parent, nid) && k in rows
    ensures var p := rows[parent]; var r := InsertedRows(rows, row, parent, nid);
      r[k] == if rows[k].treeId == p.treeId
              then rows[k].(left := Opened(rows[k].left, p.right, 2), right := Opened(rows[k].right, p.right, 2))
              else rows[k]
  {
    var p := rows[parent];
    NodeGapOpenedRows(rows, Placed(row, p));
    if k != parent && rows[k].treeId == p.treeId {
      EndpointsDistinct(rows, k, parent);
    }
  }

  /** The old rows keep their trees and the order of their endpoints. */
  lemma OldRowsKeepOrder(rows: Rows, row: Row, parent: Id, nid: Id)
    requires InsertionSetting(rows, row, parent, nid)
    ensures OrderKept(rows, InsertedRows(rows, row, parent, nid), rows.Keys)
  {
    var r := InsertedRows(rows, row, parent, nid);
    forall j, k | j in rows && k in rows
      ensures rows[j].treeId == rows[k].treeId <==> r[j].treeId == r[k].treeId
      ensures rows[j].treeId == rows[k].treeId ==>
              && (rows[j].left < rows[k].left <==> r[j].left < r[k].left)
              && (rows[j].right < rows[k].right <==> r[j].right < r[k].right)
              && (rows[j].right < rows[k].left <==> r[j].right < r[k].left)
              && (rows[j].left < rows[k].right <==> r[j].left < r[k].right)
    {
      OldRow(rows, row, parent, nid, j);
      OldRow(rows, row, parent, nid, k);
    }
  }

  /** The rows whose interval contains the parent's right edge are the parent and its ancestors. */
  lemma StraddlesPivot(rows: Rows, parent: Id, k: Id)
    requires Shaped(rows) && parent in rows && k in rows
    requires rows[k].treeId == rows[parent].treeId
    ensures (rows[k].left < rows[parent].right <= rows[k].right) <==> Within(rows[parent], rows[k])
  {
    if k != parent {
      assert Nested(rows[k], rows[parent]);
    }
  }

  /** The new row lies inside exactly the parent and the parent's ancestors, and holds no row. */
  lemma NewRowPlaced(rows: Rows, row: Row, parent: Id, nid: Id, k: Id)
    requires InsertionSetting(rows, row, parent, nid) && k in rows
    ensures var r := InsertedRows(rows, row, parent, nid);
      && (Inside(r[nid], r[k]) <==> Within(rows[parent], rows[k]))
      && !Within(r[k], r[nid])
      && (r[k].treeId == r[nid].treeId ==> Nested(r[nid], r[k]))
  {
    OldRow(rows, row, parent, nid, k);
    if rows[k].treeId == rows[parent].treeId {
      StraddlesPivot(rows, parent, k);
      if k != parent {
        EndpointsDistinct(rows, k, parent);
      }
    }
  }

  /** An old row's subtree gains the new row exactly when it encloses the parent. */
  lemma OldSubtree(rows: Rows, row: Row, parent: Id, nid: Id, k: Id)
    requires InsertionSetting(rows, row, parent, nid) && k in rows
    ensures var r := InsertedRows(rows, row, parent, nid);
      SubtreeIds(r, k) == SubtreeIds(rows, k) + (if Within(rows[parent], rows[k]) then {nid} else {})
  {
    var r := InsertedRows(rows, row, parent, nid);
    OldRowsKeepOrder(rows, row, parent, nid);
    SelectionsKept(rows, r, rows.Keys, k);
    NewRowPlaced(rows, row, parent, nid, k);
    forall j
      ensures j in SubtreeIds(r, k) <==> j in SubtreeIds(rows, k) || (j == nid && Within(rows[parent], rows[k]))
    {
      if j in SubtreeIds(r, k) && j != nid {
        assert j in SubtreeIds(r, k) * rows.Keys;
      }
      if j in SubtreeIds(rows, k) {
        assert j in SubtreeIds(rows, k) * rows.Keys;
      }
    }
  }

  /** An old row keeps its ancestors: the new row encloses nothing. */
  lemma OldAncestors(rows: Rows, row: Row, parent: Id, nid: Id, k: Id)
    requires InsertionSetting(rows, row, parent, nid) && k in rows
    ensures AncestorIds(InsertedRows(rows, row, parent, nid), k) == AncestorIds(rows, k)
  {
    var r := InsertedRows(rows, row, parent, nid);
    OldRowsKeepOrder(rows, row, parent, nid);
    SelectionsKept(rows, r, rows.Keys, k);
    NewRowPlaced(rows, row, parent, nid, k);
    forall j
      ensures j in AncestorIds(r, k) <==> j in AncestorIds(rows, k)
    {
      if j in AncestorIds(r, k) {
        assert j in AncestorIds(r, k) * rows.Keys;
      }
      if j in AncestorIds(rows, k) {
        assert j in AncestorIds(rows, k) * rows.Keys;
      }
    }
  }

  /** The new row's subtree is itself alone. */
  lemma NewSubtree(rows: Rows, row: Row, parent: Id, nid: Id)
    requires InsertionSetting(rows, row, parent, nid)
    ensures SubtreeIds(InsertedRows(rows, row, parent, nid), nid) == {nid}
  {
    var r := InsertedRows(rows, row, parent, nid);
    forall j | j in SubtreeIds(r, nid)
      ensures j == nid
    {
      if j != nid {
        NewRowPlaced(rows, row, parent, nid, j);
      }
    }
  }

  /** The new row's ancestors are the parent and the parent's ancestors. */
  lemma NewAncestors(rows: Rows, row: Row, parent: Id, nid: Id)
    requires InsertionSetting(rows, row, parent, nid)
    ensures AncestorIds(InsertedRows(rows, row, parent, nid), nid) == AncestorIds(rows, parent) + {parent}
    ensures parent !in AncestorIds(rows, parent)
  {
    var r := InsertedRows(rows, row, parent, nid);
    forall j
      ensures j in AncestorIds(r, nid) <==> j in AncestorIds(rows, parent) || j == parent
    {
      if j in rows {
        NewRowPlaced(rows, row, parent, nid, j);
      }
    }
  }

  /** The inserted table is shaped: intervals well formed and nested. */
  lemma InsertionKeepsShape(rows: Rows, row: Row, parent: Id, nid: Id)
    requires InsertionSetting(rows, row, parent, nid)
    ensures Shaped(InsertedRows(rows, row, parent, nid))
  {
    var r := InsertedRows(rows, row, parent, nid);
    OldRowsKeepOrder(rows, row, parent, nid);
    NestingKept(rows, r, rows.Keys);
    forall k | k in r
      ensures Ordered(r[k])
    {
      if k != nid {
        OldRow(rows, row, parent, nid, k);
      }
    }
    forall j, k | j in r && k in r && j != k && r[j].treeId == r[k].treeId
      ensures Nested(r[j], r[k])
    {
      if j == nid {
        NewRowPlaced(rows, row, parent, nid, k);
      } else if k == nid {
        NewRowPlaced(rows, row, parent, nid, j);
      }
    }
  }

  /** An old row stays sized: its span grows by 2 exactly when its subtree gains the new row. */
  lemma OldRowSized(rows: Rows, row: Row, parent: Id, nid: Id, k: Id)
    requires InsertionSetting(rows, row, parent, nid) && k in rows
    requires rows[k].right - rows[k].left + 1 == 2 * |SubtreeIds(rows, k)|
    ensures var r := InsertedRows(rows, row, parent, nid);
      r[k].right - r[k].left + 1 == 2 * |SubtreeIds(r, k)|
  {
    OldRow(rows, row, parent, nid, k);
    OldSubtree(rows, row, parent, nid, k);
    if rows[k].treeId == rows[parent].treeId {
      StraddlesPivot(rows, parent, k);
    }
  }

  /** An old row that was sized, leveled and rooted stays so. */
  lemma OldRowValid(rows: Rows, row: Row, parent: Id, nid: Id, k: Id)
    requires InsertionSetting(rows, row, parent, nid) && k in rows
    requires rows[k].right - rows[k].left + 1 == 2 * |SubtreeIds(rows, k)|
    requires rows[k].depth == |AncestorIds(rows, k)|
    requires AncestorIds(rows, k) == {} ==> rows[k].left == 1
    ensures var r := InsertedRows(rows, row, parent, nid);
      && r[k].right - r[k].left + 1 == 2 * |SubtreeIds(r, k)|
      && r[k].depth == |AncestorIds(r, k)|
      && (AncestorIds(r, k) == {} ==> r[k].left == 1)
  {
    OldRow(rows, row, parent, nid, k);
    OldRowSized(rows, row, parent, nid, k);
    OldAncestors(rows, row, parent, nid, k);
    assert Ordered(rows[parent]);
  }

  /** The new row is a sized leaf one level below its parent, which was leveled. */
  lemma NewRowValid(rows: Rows, row: Row, parent: Id, nid: Id)
    requires InsertionSetting(rows, row, parent, nid)
    requires rows[parent].depth == |AncestorIds(rows, parent)|
    ensures var r := InsertedRows(rows, row, parent, nid);
      && r[nid].right - r[nid].left + 1 == 2 * |SubtreeIds(r, nid)|
      && r[nid].depth == |AncestorIds(r, nid)|
      && AncestorIds(r, nid) != {}
  {
    NewSubtree(rows, row, parent, nid);
    NewAncestors(rows, row, parent, nid);
  }

  /** Saving a child placed in its parent's tree keeps the nested-set invariant. */
  lemma InsertionKeepsValid(rows: Rows, row: Row, parent: Id, nid: Id)
    requires Valid(rows) && parent in rows && nid !in rows
    requires row.treeId == rows[parent].treeId
    ensures Valid(InsertedRows(rows, row, parent, nid))
  {
    var r := InsertedRows(rows, row, parent, nid);
    InsertionKeepsShape(rows, row, parent, nid);
    forall k | k in r
      ensures r[k].right - r[k].left + 1 == 2 * |SubtreeIds(r, k)|
      ensures r[k].depth == |AncestorIds(r, k)|
      ensures AncestorIds(r, k) == {} ==> r[k].left == 1
    {
      if k == nid {
        NewRowValid(rows, row, parent, nid);
      } else {
        OldRowValid(rows, row, parent, nid, k);
      }
    }
  }

  /**
    With the tree id read from the stored parent, a save keeps the invariant
    and the new row is a descendant of its parent, one level below it.
  */
  lemma PlacedUnderParent(rows: Rows, row: Row, parent: Id, nid: Id)
    requires Valid(rows) && parent in rows && nid !in rows
    ensures var r := InsertedUnderParent(rows, row, parent, nid);
      && Valid(r)
      && nid in DescendantIds(r, parent)
      && AncestorIds(r, nid) == AncestorIds(rows, parent) + {parent}
  {
    var row' := row.(treeId := rows[parent].treeId);
    InsertionKeepsValid(rows, row', parent, nid);
    NewAncestors(rows, row', parent, nid);
  }

  // ---------------------------------------------------------------------
  // A child saved through a stale parent instance
  // ---------------------------------------------------------------------

  /** Root `A` (key 1) after `b.bifurcate()` moved its child `B` (key 2) into tree 2. */
  function BifurcatedPair(): Rows {
    map[1 := Row(None, 1, 2, 0, 1, false, "A"), 2 := Row(Some(1), 1, 2, 0, 2, false, "B")]
  }

  /** `C` as the `parent` setter leaves it when handed the stale `b`: `b`'s old depth 1 plus one, and old tree id 1. */
  function StaleChild(): Row {
    Row(Some(2), 1, 2, 2, 1, false, "C")
  }

  /** The two rows of the pair lie in different trees. */
  lemma PairShaped()
    ensures Shaped(BifurcatedPair())
  {
    var rows := BifurcatedPair();
    PairSelections();
    forall j, k | j in rows && k in rows && j != k
      ensures rows[j].treeId != rows[k].treeId
    {
      assert rows[j].treeId == j && rows[k].treeId == k;
    }
  }

  /** Each row of the pair is a root over itself alone. */
  lemma PairRowsValid()
    ensures var rows := BifurcatedPair(); Sized(rows) && Leveled(rows) && Rooted(rows)
  {
    var rows := BifurcatedPair();
    PairSelections();
    forall k | k in rows
      ensures rows[k].right - rows[k].left + 1 == 2 * |SubtreeIds(rows, k)|
      ensures rows[k].depth == |AncestorIds(rows, k)| && rows[k].left == 1
    {
      if k == 1 {
      } else {
        assert k == 2;
      }
    }
  }

  /** The table before the save satisfies the invariant: two one-node trees. */
  lemma BifurcatedPairValid()
    ensures Valid(BifurcatedPair())
  {
    PairShaped();
    PairRowsValid();
  }

  /** Each of the two rows is a tree of its own. */
  lemma PairSelections()
    ensures var rows := BifurcatedPair();
      && rows.Keys == {1, 2}
      && SubtreeIds(rows, 1) == {1} && SubtreeIds(rows, 2) == {2}
      && AncestorIds(rows, 1) == {} && AncestorIds(rows, 2) == {}
  {
    var rows := BifurcatedPair();
    assert rows.Keys == {1, 2};
    assert SubtreeIds(rows, 1) == {1};
    assert SubtreeIds(rows, 2) == {2};
  }

  /** The table the save leaves behind, row by row. */
  lemma StaleSaveRows()
    ensures var rows := BifurcatedPair(); var r := InsertedRows(rows, StaleChild(), 2, 3);
      && r.Keys == {1, 2, 3}
      && r[1] == rows[1].(right := 4)
      && r[2] == rows[2]
      && r[3] == StaleChild().(left := 2, right := 3, depth := 1)
  {
    var rows := BifurcatedPair();
    NodeGapOpenedRows(rows, Placed(StaleChild(), rows[2]));
  }

  /** In a table with `A` at [1, 4] and `C` at [2, 3] in tree 1 and `B` alone in tree 2, `C` hangs under `A` only. */
  lemma StrandedByIntervals(r: Rows)
    requires r.Keys == {1, 2, 3}
    requires r[1] == BifurcatedPair()[1].(right := 4)
    requires r[2] == BifurcatedPair()[2]
    requires r[3] == StaleChild().(left := 2, right := 3, depth := 1)
    ensures 3 !in DescendantIds(r, 2)
    ensures AncestorIds(r, 3) == {1}
  {
    forall j
      ensures j in AncestorIds(r, 3) <==> j == 1
    {
      if j in r {
        assert j == 1 || j == 2 || j == 3;
      }
    }
  }

  /**
    As written, saving `C` with `parent=b` widens tree 1 instead of `B`'s tree:
    the stored parent is untouched, `C` is not among its descendants, and by
    the intervals `C` hangs under `A` while its `_parent` names `B`.
  */
  lemma StaleTreeIdStrandsChild()
    ensures var rows := BifurcatedPair(); var r := InsertedRows(rows, StaleChild(), 2, 3);
      && Valid(rows)
      && r[3].parent == Some(2)
      && r[2] == rows[2]
      && 3 !in DescendantIds(r, 2)
      && AncestorIds(r, 3) == {1}
  {
    BifurcatedPairValid();
    StaleSaveRows();
    StrandedByIntervals(InsertedRows(BifurcatedPair(), StaleChild(), 2, 3));
  }
}
