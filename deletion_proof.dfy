/**
  Deleting a node keeps the invariant: `pre_delete_node` closes the gap once,
  the node and its descendants are removed, and what remains is again a
  dense, properly nested forest with correct sizes, depths and roots.
*/
module DeletionProof {
  import opened Table
  import opened Managers
  import opened Signals
  import opened Invariant

  /** The first hook's effect on a row outside the node's descendants, in closed form. */
  lemma CompensatedRow(rows: Rows, nid: Id, k: Id)
    requires Shaped(rows) && nid in rows && k in rows && k !in DescendantIds(rows, nid)
    requires rows[nid].right - rows[nid].left + 1 == 2 * |SubtreeIds(rows, nid)|
    ensures var n := rows[nid];
      DeletionCompensated(rows, nid)[k]
        == Shifted(rows[k], n.treeId, -(n.right - n.left + 1), rows[k].left >= n.right, rows[k].right >= n.right)
  {
    var n := rows[nid];
    var flagged := DescendantsFlagged(rows, nid);
    SubtreeIsNodeAndDescendants(rows, nid);
    FlaggedKeepsOthers(rows, nid, k);
    FlaggedKeepsOthers(rows, nid, nid);
    CompensationFlagsDescendants(rows, nid);
    WidthIsSpan(rows, nid);
    DeletionGapClosedRows(flagged, nid);
  }

  lemma FlaggedKeepsOthers(rows: Rows, nid: Id, k: Id)
    requires nid in rows && k in rows && k !in DescendantIds(rows, nid)
    ensures DescendantsFlagged(rows, nid)[k] == rows[k]
  {
    DescendantsFlaggedRows(rows, nid);
  }

  /** The rows a delete keeps are exactly those outside the node's subtree. */
  lemma DeletedKeys(rows: Rows, nid: Id)
    requires Shaped(rows) && nid in rows
    ensures forall j :: j in DeletedRows(rows, nid) <==> j in rows && j !in SubtreeIds(rows, nid)
  {
    SubtreeIsNodeAndDescendants(rows, nid);
  }

  /** One surviving row after a delete, in closed form. */
  lemma SurvivorRow(rows: Rows, nid: Id, k: Id)
    requires Shaped(rows) && nid in rows && k in DeletedRows(rows, nid)
    requires rows[nid].right - rows[nid].left + 1 == 2 * |SubtreeIds(rows, nid)|
    ensures k in rows && k !in SubtreeIds(rows, nid)
    ensures var n := rows[nid];
      DeletedRows(rows, nid)[k]
        == if rows[k].treeId == n.treeId
           then rows[k].(left := Closed(rows[k].left, n.right, n.right - n.left + 1),
                         right := Closed(rows[k].right, n.right, n.right - n.left + 1))
           else rows[k]
  {
    DeletedKeys(rows, nid);
    SubtreeIsNodeAndDescendants(rows, nid);
    assert DeletedRows(rows, nid)[k] == DeletionCompensated(rows, nid)[k];
    CompensatedRow(rows, nid, k);
  }

  /** The surviving rows keep their tree and the order of their endpoints. */
  lemma SurvivorsKeepOrder(rows: Rows, nid: Id)
    requires Shaped(rows) && nid in rows
    requires rows[nid].right - rows[nid].left + 1 == 2 * |SubtreeIds(rows, nid)|
    ensures OrderKept(rows, DeletedRows(rows, nid), DeletedRows(rows, nid).Keys)
  {
    var b := DeletedRows(rows, nid);
    var n := rows[nid];
    forall j, k | j in b && k in b
      ensures rows[j].treeId == rows[k].treeId <==> b[j].treeId == b[k].treeId
      ensures rows[j].treeId == rows[k].treeId ==>
              && (rows[j].left < rows[k].left <==> b[j].left < b[k].left)
              && (rows[j].right < rows[k].right <==> b[j].right < b[k].right)
              && (rows[j].right < rows[k].left <==> b[j].right < b[k].left)
              && (rows[j].left < rows[k].right <==> b[j].left < b[k].right)
    {
      SurvivorRow(rows, nid, j);
      SurvivorRow(rows, nid, k);
      if rows[j].treeId == n.treeId && rows[k].treeId == n.treeId {
        OutsideSubtree(rows, nid, j);
        OutsideSubtree(rows, nid, k);
        ClosedKeepsOrder(rows[j].left, rows[k].left, n.left, n.right);
        ClosedKeepsOrder(rows[j].right, rows[k].right, n.left, n.right);
        ClosedKeepsOrder(rows[j].right, rows[k].left, n.left, n.right);
        ClosedKeepsOrder(rows[j].left, rows[k].right, n.left, n.right);
      }
    }
  }

  /** A survivor's subtree after the delete is its old subtree without the deleted rows. */
  lemma SurvivorSubtree(rows: Rows, nid: Id, k: Id)
    requires Shaped(rows) && nid in rows && k in DeletedRows(rows, nid)
    requires OrderKept(rows, DeletedRows(rows, nid), DeletedRows(rows, nid).Keys)
    ensures k in rows
    ensures SubtreeIds(DeletedRows(rows, nid), k) == SubtreeIds(rows, k) - SubtreeIds(rows, nid)
  {
    var b := DeletedRows(rows, nid);
    DeletedKeys(rows, nid);
    SelectionsKept(rows, b, b.Keys, k);
    forall j
      ensures j in SubtreeIds(b, k) <==> j in SubtreeIds(rows, k) && j !in SubtreeIds(rows, nid)
    {
      if j in SubtreeIds(b, k) {
        assert j in SubtreeIds(b, k) * b.Keys;
      }
      if j in SubtreeIds(rows, k) && j !in SubtreeIds(rows, nid) {
        assert j in SubtreeIds(rows, k) * b.Keys;
      }
    }
  }

  /** Cardinality of a subtree that loses a part it contains. */
  lemma RemovedPart(sub: set<Id>, S: set<Id>)
    requires S <= sub
    ensures |sub - S| == |sub| - |S|
  {
    assert sub == (sub - S) + S;
  }

  /** A survivor's span shrinks by the deleted width exactly when it enclosed the deleted node, as its subtree does. */
  lemma SurvivorSized(rows: Rows, nid: Id, k: Id)
    requires Shaped(rows) && nid in rows && k in DeletedRows(rows, nid)
    requires OrderKept(rows, DeletedRows(rows, nid), DeletedRows(rows, nid).Keys)
    requires rows[nid].right - rows[nid].left + 1 == 2 * |SubtreeIds(rows, nid)|
    requires k in rows ==> rows[k].right - rows[k].left + 1 == 2 * |SubtreeIds(rows, k)|
    ensures var b := DeletedRows(rows, nid);
      b[k].right - b[k].left + 1 == 2 * |SubtreeIds(b, k)|
  {
    var n := rows[nid];
    SurvivorRow(rows, nid, k);
    SurvivorSubtree(rows, nid, k);
    if rows[k].treeId == n.treeId {
      OutsideSubtree(rows, nid, k);
    }
    if rows[k].treeId == n.treeId && Inside(n, rows[k]) {
      EnclosedPart(rows, nid, k);
      RemovedPart(SubtreeIds(rows, k), SubtreeIds(rows, nid));
    } else {
      DisjointPart(rows, nid, k);
    }
  }

  /** A row enclosing the deleted node contains its whole subtree. */
  lemma EnclosedPart(rows: Rows, nid: Id, k: Id)
    requires nid in rows && k in rows
    requires rows[k].treeId == rows[nid].treeId && Inside(rows[nid], rows[k])
    ensures SubtreeIds(rows, nid) <= SubtreeIds(rows, k)
  {
  }

  /** A row that does not enclose the deleted node shares no row with its subtree. */
  lemma DisjointPart(rows: Rows, nid: Id, k: Id)
    requires Shaped(rows) && nid in rows && k in rows && k !in SubtreeIds(rows, nid)
    requires rows[k].treeId == rows[nid].treeId ==> !Inside(rows[nid], rows[k])
    ensures SubtreeIds(rows, k) - SubtreeIds(rows, nid) == SubtreeIds(rows, k)
  {
    forall s | s in SubtreeIds(rows, nid)
      ensures s !in SubtreeIds(rows, k)
    {
      if s in SubtreeIds(rows, k) {
        OutsideSubtree(rows, nid, k);
      }
    }
  }

  /** No deleted row encloses a surviving row, so the survivors keep their ancestors. */
  lemma SurvivorAncestors(rows: Rows, nid: Id, k: Id)
    requires Shaped(rows) && nid in rows && k in DeletedRows(rows, nid)
    requires OrderKept(rows, DeletedRows(rows, nid), DeletedRows(rows, nid).Keys)
    ensures k in rows
    ensures AncestorIds(DeletedRows(rows, nid), k) == AncestorIds(rows, k)
  {
    var b := DeletedRows(rows, nid);
    DeletedKeys(rows, nid);
    SelectionsKept(rows, b, b.Keys, k);
    forall j
      ensures j in AncestorIds(b, k) <==> j in AncestorIds(rows, k)
    {
      if j in AncestorIds(b, k) {
        assert j in AncestorIds(b, k) * b.Keys;
      }
      if j in AncestorIds(rows, k) {
        assert j in b;
        assert j in AncestorIds(rows, k) * b.Keys;
      }
    }
  }

  /** Deleting a node, with the hook's compensation, keeps the nested-set invariant. */
  lemma DeletionKeepsValid(rows: Rows, nid: Id)
    requires Valid(rows) && nid in rows
    ensures Valid(DeletedRows(rows, nid))
  {
    var b := DeletedRows(rows, nid);
    var n := rows[nid];
    SurvivorsKeepOrder(rows, nid);
    NestingKept(rows, b, b.Keys);
    forall k | k in b
      ensures Ordered(b[k])
      ensures b[k].right - b[k].left + 1 == 2 * |SubtreeIds(b, k)|
      ensures b[k].depth == |AncestorIds(b, k)|
      ensures AncestorIds(b, k) == {} ==> b[k].left == 1
    {
      SurvivorRow(rows, nid, k);
      if rows[k].treeId == n.treeId {
        OutsideSubtree(rows, nid, k);
        ClosedKeepsOrder(rows[k].left, rows[k].right, n.left, n.right);
      }
      SurvivorSized(rows, nid, k);
      SurvivorAncestors(rows, nid, k);
    }
  }

  // ---------------------------------------------------------------------
  // Hooks sent in primary-key order
  // ---------------------------------------------------------------------

  /**
    Root `R` (key 3) over `Y` (key 2) over `X` (key 1): `X` was saved first,
    as a root, and later moved under `Y`.
  */
  function OlderChild(): Rows {
    map[1 := Row(Some(2), 3, 4, 2, 3, false, "X"),
        2 := Row(Some(3), 2, 5, 1, 3, false, "Y"),
        3 := Row(None, 1, 6, 0, 3, false, "R")]
  }

  lemma OlderChildSelections()
    ensures var rows := OlderChild();
      && rows.Keys == {1, 2, 3}
      && SubtreeIds(rows, 1) == {1} && SubtreeIds(rows, 2) == {1, 2} && SubtreeIds(rows, 3) == {1, 2, 3}
      && AncestorIds(rows, 1) == {2, 3} && AncestorIds(rows, 2) == {3} && AncestorIds(rows, 3) == {}
  {
    var rows := OlderChild();
    assert rows.Keys == {1, 2, 3};
    assert SubtreeIds(rows, 1) == {1};
    assert SubtreeIds(rows, 2) == {1, 2};
    assert SubtreeIds(rows, 3) == {1, 2, 3};
    assert AncestorIds(rows, 1) == {2, 3};
    assert AncestorIds(rows, 2) == {3};
  }

  lemma OlderChildDescendants()
    ensures DescendantIds(OlderChild(), 1) == {} && DescendantIds(OlderChild(), 2) == {1}
  {
    var rows := OlderChild();
    assert rows.Keys == {1, 2, 3};
    assert DescendantIds(rows, 2) == {1};
  }

  lemma OlderChildShaped()
    ensures Shaped(OlderChild())
  {
    var rows := OlderChild();
    assert rows.Keys == {1, 2, 3};
  }

  lemma OlderChildSized()
    ensures Sized(OlderChild())
  {
    var rows := OlderChild();
    OlderChildSelections();
    forall k | k in rows
      ensures rows[k].right - rows[k].left + 1 == 2 * |SubtreeIds(rows, k)|
    {
      if k == 1 {
      } else if k == 2 {
      } else {
        assert k == 3;
      }
    }
  }

  lemma OlderChildLeveled()
    ensures Leveled(OlderChild()) && Rooted(OlderChild())
  {
    var rows := OlderChild();
    OlderChildSelections();
    forall k | k in rows
      ensures rows[k].depth == |AncestorIds(rows, k)|
      ensures AncestorIds(rows, k) == {} ==> rows[k].left == 1
    {
      if k == 1 {
      } else if k == 2 {
      } else {
        assert k == 3;
      }
    }
  }

  /** The table before the delete satisfies the invariant. */
  lemma OlderChildValid()
    ensures Valid(OlderChild())
  {
    OlderChildShaped();
    OlderChildSized();
    OlderChildLeveled();
  }

  /** The table after `X`'s hook: `X` had no descendants, so a gap of 2 closed behind its right edge 4. */
  function AfterChildHook(): Rows {
    map[1 := Row(Some(2), 3, 2, 2, 3, false, "X"),
        2 := Row(Some(3), 2, 3, 1, 3, false, "Y"),
        3 := Row(None, 1, 4, 0, 3, false, "R")]
  }

  lemma ChildHook(rows: Rows)
    requires rows == OlderChild()
    ensures DeleteHooked(rows, 1) == AfterChildHook()
  {
    OlderChildDescendants();
    FlaggedRowIs(rows, 1, 1, rows[1]);
    FlaggedRowIs(rows, 1, 2, rows[2]);
    FlaggedRowIs(rows, 1, 3, rows[3]);
    ThreeRowsEqual(DescendantsFlagged(rows, 1), rows);
    ChildGapClosed(rows);
  }

  lemma ChildGapClosed(rows: Rows)
    requires rows == OlderChild()
    ensures DeletionGapClosed(rows, 1) == AfterChildHook()
  {
    OlderChildDescendants();
    var after := AfterChildHook();
    ClosedRowIs(rows, 1, 1, 2, after[1]);
    ClosedRowIs(rows, 1, 2, 2, after[2]);
    ClosedRowIs(rows, 1, 3, 2, after[3]);
    ThreeRowsEqual(DeletionGapClosed(rows, 1), after);
  }

  /** One row of a delete compensation whose width is already known. */
  lemma ClosedRowIs(rows: Rows, nid: Id, k: Id, w: int, expected: Row)
    requires nid in rows && k in rows && SubtreeWidth(rows, nid) == w
    requires expected == Shifted(rows[k], rows[nid].treeId, -w, rows[k].left >= rows[nid].right, rows[k].right >= rows[nid].right)
    ensures DeletionGapClosed(rows, nid)[k] == expected
  {
    DeletionGapClosedRows(rows, nid);
  }

  /** Two tables over the keys 1, 2 and 3 agree when their rows do. */
  lemma ThreeRowsEqual(a: Rows, b: Rows)
    requires a.Keys == {1, 2, 3} && b.Keys == {1, 2, 3}
    requires a[1] == b[1] && a[2] == b[2] && a[3] == b[3]
    ensures a == b
  {
  }

  /** `AfterChildHook` with `X` flagged by `Y`'s hook. */
  function ChildFlagged(): Rows {
    AfterChildHook()[1 := AfterChildHook()[1].(deleting := true)]
  }

  /**
    The table after `Y`'s hook: `X`'s reversed row still counts as `Y`'s
    descendant, so a gap of 4 closes behind `Y`'s new right edge 3.
  */
  function AfterParentHook(): Rows {
    map[1 := Row(Some(2), -1, 2, 2, 3, true, "X"),
        2 := Row(Some(3), 2, -1, 1, 3, false, "Y"),
        3 := Row(None, 1, 0, 0, 3, false, "R")]
  }

  lemma ParentHook(rows: Rows)
    requires rows == AfterChildHook()
    ensures DeleteHooked(rows, 2) == AfterParentHook()
  {
    var flagged := ChildFlagged();
    HookedDescendants();
    FlaggedRowIs(rows, 2, 1, flagged[1]);
    FlaggedRowIs(rows, 2, 2, flagged[2]);
    FlaggedRowIs(rows, 2, 3, flagged[3]);
    ThreeRowsEqual(DescendantsFlagged(rows, 2), flagged);
    ParentGapClosed(flagged);
  }

  /** `X`'s row reversed by its own hook still lies inside `Y`'s, flagged or not. */
  lemma HookedDescendants()
    ensures DescendantIds(AfterChildHook(), 2) == {1} && DescendantIds(ChildFlagged(), 2) == {1}
  {
    assert AfterChildHook().Keys == {1, 2, 3};
    assert DescendantIds(AfterChildHook(), 2) == {1};
    assert DescendantIds(ChildFlagged(), 2) == {1};
  }

  lemma ParentGapClosed(rows: Rows)
    requires rows == ChildFlagged()
    ensures DeletionGapClosed(rows, 2) == AfterParentHook()
  {
    HookedDescendants();
    var after := AfterParentHook();
    ClosedRowIs(rows, 2, 1, 4, after[1]);
    ClosedRowIs(rows, 2, 2, 4, after[2]);
    ClosedRowIs(rows, 2, 3, 4, after[3]);
    ThreeRowsEqual(DeletionGapClosed(rows, 2), after);
  }

  /** The hooks in primary-key order, `X` before `Y`. */
  lemma PkOrderHooks(rows: Rows, order: seq<Id>)
    requires rows == OlderChild() && order == [1, 2]
    ensures HooksFired(rows, order) == AfterParentHook()
  {
    assert order[1..] == [2] && [2][1..] == [];
    ChildHook(rows);
    ParentHook(AfterChildHook());
  }

  /** `OlderChild` with `X` flagged by `Y`'s hook when it fires first. */
  function OlderChildFlagged(): Rows {
    OlderChild()[1 := OlderChild()[1].(deleting := true)]
  }

  /** Deleting `Y` with its own hook first: one gap of 4 closes behind `Y`'s right edge 5. */
  lemma IntendedDelete(rows: Rows)
    requires rows == OlderChild()
    ensures DeletedRows(rows, 2) == map[3 := Row(None, 1, 2, 0, 3, false, "R")]
  {
    OlderChildDescendants();
    var flagged := OlderChildFlagged();
    FlaggedRowIs(rows, 2, 1, flagged[1]);
    FlaggedRowIs(rows, 2, 2, flagged[2]);
    FlaggedRowIs(rows, 2, 3, flagged[3]);
    ThreeRowsEqual(DescendantsFlagged(rows, 2), flagged);
    assert DescendantIds(flagged, 2) == {1} by {
      assert flagged.Keys == {1, 2, 3};
    }
    ClosedRowIs(flagged, 2, 3, 4, Row(None, 1, 2, 0, 3, false, "R"));
    assert DeletedRows(rows, 2).Keys == {3};
    OneRowTable(DeletedRows(rows, 2), 3, Row(None, 1, 2, 0, 3, false, "R"));
  }

  /**
    In primary-key order `X`'s hook fires before `Y`'s, both find their row
    unflagged, and the gap is closed twice: `R` ends at [1, 0], where
    deleting `Y` with its own hook first leaves `R` at [1, 2], a valid table.
  */
  lemma PkOrderClosesTwice(rows: Rows, order: seq<Id>)
    requires rows == OlderChild() && order == [1, 2]
    ensures Collected(rows, 2, order)
    ensures Removed(HooksFired(rows, order), Doomed(rows, 2)) == map[3 := Row(None, 1, 0, 0, 3, false, "R")]
    ensures DeletedRows(rows, 2) == map[3 := Row(None, 1, 2, 0, 3, false, "R")]
    ensures Valid(rows) && !Valid(Removed(HooksFired(rows, order), Doomed(rows, 2))) && Valid(DeletedRows(rows, 2))
  {
    OlderChildValid();
    PkOrderCollected(rows, order);
    DoubleClosed(rows, order);
    Reversed(map[3 := Row(None, 1, 0, 0, 3, false, "R")], 3);
    IntendedDelete(rows);
    DeletionKeepsValid(rows, 2);
  }

  lemma PkOrderCollected(rows: Rows, order: seq<Id>)
    requires rows == OlderChild() && order == [1, 2]
    ensures Collected(rows, 2, order) && Doomed(rows, 2) == {1, 2}
  {
    OlderChildDescendants();
    assert Doomed(rows, 2) == {1, 2};
  }

  /** What is left once both hooks have run and the two rows are gone. */
  lemma DoubleClosed(rows: Rows, order: seq<Id>)
    requires rows == OlderChild() && order == [1, 2]
    ensures Removed(HooksFired(rows, order), Doomed(rows, 2)) == map[3 := Row(None, 1, 0, 0, 3, false, "R")]
  {
    PkOrderCollected(rows, order);
    PkOrderHooks(rows, order);
    HookedRemoved(AfterParentHook());
  }

  lemma HookedRemoved(a: Rows)
    requires a == AfterParentHook()
    ensures Removed(a, {1, 2}) == map[3 := Row(None, 1, 0, 0, 3, false, "R")]
  {
    var r := Removed(a, {1, 2});
    assert r.Keys == {3};
    OneRowTable(r, 3, Row(None, 1, 0, 0, 3, false, "R"));
  }

  /** A table holding a reversed interval breaks the invariant. */
  lemma Reversed(r: Rows, k: Id)
    requires k in r && r[k].right < r[k].left
    ensures !Valid(r)
  {
    assert !Ordered(r[k]);
  }

  /** A table with the one key `k` is the one-entry map. */
  lemma OneRowTable(a: Rows, k: Id, row: Row)
    requires a.Keys == {k} && a[k] == row
    ensures a == map[k := row]
  {
  }

  /** One row of the descendant flagging, once the descendants are known. */
  lemma FlaggedRowIs(rows: Rows, nid: Id, k: Id, expected: Row)
    requires nid in rows && k in rows
    requires expected == if k in DescendantIds(rows, nid) then rows[k].(deleting := true) else rows[k]
    ensures DescendantsFlagged(rows, nid)[k] == expected
  {
    DescendantsFlaggedRows(rows, nid);
  }
}
