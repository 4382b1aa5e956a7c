/**
  Moving and bifurcating keep the invariant. Both results split into two
  parts: the rows outside the moved subtree, which end up exactly as a
  delete of that subtree would leave them, and the subtree itself, cut out
  and renumbered as a tree of its own starting at 1 with its node at depth 0.
  `_bifurcate` stores the two parts side by side under different tree ids;
  `_move_node` under a parent grafts the second part into the first just
  after the parent's `_left`.
*/
module MoveInvariant {
  import opened Table
  import opened Managers
  import opened Invariant
  import opened Signals
  import opened DeletionProof
  import opened MoveSteps

  // ---------------------------------------------------------------------
  // The subtree, cut out as a tree of its own
  // ---------------------------------------------------------------------

  /** `nid`'s subtree alone, in tree `t`, translated to start at 1 and lifted so `nid` is at depth 0. */
  function Severed(rows: Rows, nid: Id, t: int): (r: Rows)
    requires nid in rows
    ensures r.Keys == SubtreeIds(rows, nid)
  {
    map k | k in SubtreeIds(rows, nid) :: Grafted(rows[k], t, 1 - rows[nid].left, -rows[nid].depth)
  }

  /** The cut-out rows keep the order of their endpoints; they all share one tree before and after. */
  lemma SeveredKeepsOrder(rows: Rows, nid: Id, t: int)
    requires nid in rows
    ensures OrderKept(rows, Severed(rows, nid, t), SubtreeIds(rows, nid))
  {
  }

  /** Inside a subtree, a row's subtree is the same whether read in the whole table or in the cut-out one. */
  lemma SeveredSubtree(rows: Rows, nid: Id, t: int, k: Id)
    requires nid in rows && k in SubtreeIds(rows, nid)
    ensures SubtreeIds(Severed(rows, nid, t), k) == SubtreeIds(rows, k)
  {
    var s := Severed(rows, nid, t);
    var S := SubtreeIds(rows, nid);
    SeveredKeepsOrder(rows, nid, t);
    SelectionsKept(rows, s, S, k);
    forall j | j in SubtreeIds(rows, k)
      ensures j in S
    {
    }
  }

  /**
    The ancestors of a row of `nid`'s subtree are its ancestors inside the
    subtree together with the ancestors of `nid`, and the two parts share no row.
  */
  lemma AncestorsSplit(rows: Rows, nid: Id, k: Id)
    requires Shaped(rows) && nid in rows && k in SubtreeIds(rows, nid)
    ensures AncestorIds(rows, k) == AncestorIds(rows, k) * SubtreeIds(rows, nid) + AncestorIds(rows, nid)
    ensures AncestorIds(rows, nid) * SubtreeIds(rows, nid) == {}
  {
    var S := SubtreeIds(rows, nid);
    forall j | j in AncestorIds(rows, k) && j !in S
      ensures j in AncestorIds(rows, nid)
    {
      assert j != nid;
      assert Nested(rows[j], rows[nid]);
    }
  }

  /** A row of the subtree other than `nid` has `nid` among its ancestors. */
  lemma BelowNode(rows: Rows, nid: Id, k: Id)
    requires Shaped(rows) && nid in rows && k in SubtreeIds(rows, nid) && k != nid
    ensures nid in AncestorIds(rows, k)
  {
    EndpointsDistinct(rows, k, nid);
  }

  /** In the cut-out table a row's ancestors are its old ancestors inside the subtree. */
  lemma SeveredAncestors(rows: Rows, nid: Id, t: int, k: Id)
    requires nid in rows && k in SubtreeIds(rows, nid)
    ensures AncestorIds(Severed(rows, nid, t), k) == AncestorIds(rows, k) * SubtreeIds(rows, nid)
  {
    var s := Severed(rows, nid, t);
    SeveredKeepsOrder(rows, nid, t);
    SelectionsKept(rows, s, SubtreeIds(rows, nid), k);
  }

  /** One row of the cut-out table is sized, leveled and rooted when it was so in the whole table. */
  lemma SeveredRowValid(rows: Rows, nid: Id, t: int, k: Id)
    requires Shaped(rows) && nid in rows && k in SubtreeIds(rows, nid)
    requires rows[k].right - rows[k].left + 1 == 2 * |SubtreeIds(rows, k)|
    requires rows[k].depth == |AncestorIds(rows, k)|
    requires rows[nid].depth == |AncestorIds(rows, nid)|
    ensures var s := Severed(rows, nid, t);
      && s[k].right - s[k].left + 1 == 2 * |SubtreeIds(s, k)|
      && s[k].depth == |AncestorIds(s, k)|
      && (AncestorIds(s, k) == {} ==> s[k].left == 1)
  {
    var s := Severed(rows, nid, t);
    var S := SubtreeIds(rows, nid);
    SeveredSubtree(rows, nid, t, k);
    SeveredAncestors(rows, nid, t, k);
    AncestorsSplit(rows, nid, k);
    assert |AncestorIds(rows, k)| == |AncestorIds(rows, k) * S| + |AncestorIds(rows, nid)|;
    if k != nid {
      BelowNode(rows, nid, k);
      assert nid in AncestorIds(s, k);
    }
  }

  /** The cut-out rows are well formed and nested. */
  lemma SeveredShaped(rows: Rows, nid: Id, t: int)
    requires Shaped(rows) && nid in rows
    ensures Shaped(Severed(rows, nid, t))
  {
    var s := Severed(rows, nid, t);
    SeveredKeepsOrder(rows, nid, t);
    NestingKept(rows, s, SubtreeIds(rows, nid));
  }

  /** Every cut-out row is sized, leveled and rooted. */
  lemma SeveredRowsValid(rows: Rows, nid: Id, t: int)
    requires Shaped(rows) && Sized(rows) && Leveled(rows) && nid in rows
    ensures var s := Severed(rows, nid, t); Sized(s) && Leveled(s) && Rooted(s)
  {
    var s := Severed(rows, nid, t);
    forall k | k in s
      ensures s[k].right - s[k].left + 1 == 2 * |SubtreeIds(s, k)|
      ensures s[k].depth == |AncestorIds(s, k)|
      ensures AncestorIds(s, k) == {} ==> s[k].left == 1
    {
      SeveredRowValid(rows, nid, t, k);
    }
  }

  /** The cut-out table is one tree, numbered from 1, with `nid` at its root at depth 0. */
  lemma SeveredRoot(rows: Rows, nid: Id, t: int)
    requires Shaped(rows) && nid in rows
    requires rows[nid].right - rows[nid].left + 1 == 2 * |SubtreeIds(rows, nid)|
    ensures var s := Severed(rows, nid, t);
      && nid in s && SubtreeIds(s, nid) == s.Keys
      && s[nid].left == 1 && s[nid].right == 2 * |s.Keys| && s[nid].depth == 0
      && s[nid].right == Width(rows[nid])
      && AncestorIds(s, nid) == {}
      && forall k :: k in s ==> s[k].treeId == t
  {
    assert nid in SubtreeIds(rows, nid);
    SeveredSubtree(rows, nid, t, nid);
    SeveredAncestors(rows, nid, t, nid);
    AncestorsSplit(rows, nid, nid);
  }

  /** The cut-out subtree of a valid table is a valid one-tree table rooted at `nid`. */
  lemma SeveredValid(rows: Rows, nid: Id, t: int)
    requires Valid(rows) && nid in rows
    ensures var s := Severed(rows, nid, t);
      && Valid(s)
      && nid in s && SubtreeIds(s, nid) == s.Keys
      && s[nid].left == 1 && s[nid].right == 2 * |s.Keys| && s[nid].depth == 0
      && s[nid].right == Width(rows[nid])
      && AncestorIds(s, nid) == {}
      && forall k :: k in s ==> s[k].treeId == t
  {
    SeveredShaped(rows, nid, t);
    SeveredRowsValid(rows, nid, t);
    SeveredRoot(rows, nid, t);
  }

  // ---------------------------------------------------------------------
  // Two forests side by side
  // ---------------------------------------------------------------------

  /** `u` holds exactly the rows of `a` and of `c`. */
  ghost predicate Union(u: Rows, a: Rows, c: Rows) {
    && u.Keys == a.Keys + c.Keys
    && (forall k :: k in a ==> u[k] == a[k])
    && (forall k :: k in c ==> u[k] == c[k])
  }

  /** No key and no tree id in common. */
  ghost predicate Apart(a: Rows, c: Rows) {
    && (forall k :: k in c ==> k !in a)
    && (forall i, j :: i in a && j in c ==> a[i].treeId != c[j].treeId)
  }

  /** A row of part `p` of `u` whose tree no other row of `u` shares selects only from `p`. */
  lemma PartSelections(u: Rows, p: Rows, k: Id)
    requires k in p && p.Keys <= u.Keys
    requires forall j :: j in p ==> u[j] == p[j]
    requires forall j :: j in u && j !in p ==> u[j].treeId != p[k].treeId
    ensures SubtreeIds(u, k) == SubtreeIds(p, k)
    ensures AncestorIds(u, k) == AncestorIds(p, k)
  {
  }

  /** Every row of `u` outside the first part lies in another tree than `k` of the first part. */
  lemma OthersOfFirst(u: Rows, a: Rows, c: Rows, k: Id)
    requires Union(u, a, c) && Apart(a, c) && k in a
    ensures forall j :: j in u && j !in a ==> u[j].treeId != a[k].treeId
  {
    forall j | j in u && j !in a
      ensures u[j].treeId != a[k].treeId
    {
      assert j in c;
    }
  }

  /** Every row of `u` outside the second part lies in another tree than `k` of the second part. */
  lemma OthersOfSecond(u: Rows, a: Rows, c: Rows, k: Id)
    requires Union(u, a, c) && Apart(a, c) && k in c
    ensures forall j :: j in u && j !in c ==> u[j].treeId != c[k].treeId
  {
    forall j | j in u && j !in c
      ensures u[j].treeId != c[k].treeId
    {
      assert j in a;
    }
  }

  /** A row of part `p` of `u` that shares its tree with no other row of `u` keeps its part's facts. */
  lemma UnionRow(u: Rows, p: Rows, k: Id)
    requires k in p && p.Keys <= u.Keys
    requires forall j :: j in p ==> u[j] == p[j]
    requires forall j :: j in u && j !in p ==> u[j].treeId != p[k].treeId
    requires Ordered(p[k])
    requires p[k].right - p[k].left + 1 == 2 * |SubtreeIds(p, k)|
    requires p[k].depth == |AncestorIds(p, k)|
    requires AncestorIds(p, k) == {} ==> p[k].left == 1
    ensures Ordered(u[k])
    ensures u[k].right - u[k].left + 1 == 2 * |SubtreeIds(u, k)|
    ensures u[k].depth == |AncestorIds(u, k)|
    ensures AncestorIds(u, k) == {} ==> u[k].left == 1
  {
    PartSelections(u, p, k);
  }

  /** Two valid tables with no key and no tree id in common form a valid table together. */
  lemma ForestUnion(u: Rows, a: Rows, c: Rows)
    requires Valid(a) && Valid(c) && Union(u, a, c) && Apart(a, c)
    ensures Valid(u)
  {
    ForestUnionShaped(u, a, c);
    ForestUnionRows(u, a, c);
  }

  lemma ForestUnionShaped(u: Rows, a: Rows, c: Rows)
    requires Shaped(a) && Shaped(c) && Union(u, a, c) && Apart(a, c)
    ensures Shaped(u)
  {
    forall k | k in u
      ensures Ordered(u[k])
    {
      if k in a {
        assert Ordered(a[k]);
      } else {
        assert Ordered(c[k]);
      }
    }
    forall i, j | i in u && j in u && i != j && u[i].treeId == u[j].treeId
      ensures Nested(u[i], u[j])
    {
      UnionNested(u, a, c, i, j);
    }
  }

  lemma ForestUnionRows(u: Rows, a: Rows, c: Rows)
    requires Valid(a) && Valid(c) && Union(u, a, c) && Apart(a, c)
    ensures Sized(u) && Leveled(u) && Rooted(u)
  {
    forall k | k in u
      ensures u[k].right - u[k].left + 1 == 2 * |SubtreeIds(u, k)|
      ensures u[k].depth == |AncestorIds(u, k)|
      ensures AncestorIds(u, k) == {} ==> u[k].left == 1
    {
      if k in a {
        OthersOfFirst(u, a, c, k);
        UnionRow(u, a, k);
      } else {
        OthersOfSecond(u, a, c, k);
        UnionRow(u, c, k);
      }
    }
  }

  /** Two rows of one tree in the union come from one part, where they were nested. */
  lemma UnionNested(u: Rows, a: Rows, c: Rows, i: Id, j: Id)
    requires Union(u, a, c) && Apart(a, c) && WellNested(a) && WellNested(c)
    requires i in u && j in u && i != j && u[i].treeId == u[j].treeId
    ensures Nested(u[i], u[j])
  {
    if i in a && j in a {
      assert Nested(a[i], a[j]);
    } else if i in c && j in c {
      assert Nested(c[i], c[j]);
    }
  }

  // ---------------------------------------------------------------------
  // Bifurcation
  // ---------------------------------------------------------------------

  /** A row of the subtree ends as the cut-out row. */
  lemma BifurcatedInside(rows: Rows, nid: Id, t: int, k: Id)
    requires MoveSetting(rows, nid, t) && k in SubtreeIds(rows, nid)
    ensures var n := rows[nid]; BifurcatedRows(rows, nid, n.treeId, n.depth, t)[k] == Severed(rows, nid, t)[k]
  {
    BifurcatedRow(rows, nid, t, k);
  }

  /** A row outside the subtree ends as a delete of the subtree leaves it. */
  lemma BifurcatedOutside(rows: Rows, nid: Id, t: int, k: Id)
    requires MoveSetting(rows, nid, t) && k in DeletedRows(rows, nid)
    ensures var n := rows[nid]; BifurcatedRows(rows, nid, n.treeId, n.depth, t)[k] == DeletedRows(rows, nid)[k]
  {
    SurvivorRow(rows, nid, k);
    BifurcatedRow(rows, nid, t, k);
  }

  /** A key set is the keys a delete keeps together with the deleted ones. */
  lemma KeysSplit(keys: set<Id>, kept: set<Id>, removed: set<Id>)
    requires removed <= keys
    requires forall j :: j in kept <==> j in keys && j !in removed
    ensures keys == kept + removed
  {
  }

  /** The rows outside the subtree end as a delete leaves them; the subtree is cut out under the new id. */
  lemma BifurcatedSplit(rows: Rows, nid: Id, t: int)
    requires MoveSetting(rows, nid, t)
    ensures var n := rows[nid];
      Union(BifurcatedRows(rows, nid, n.treeId, n.depth, t), DeletedRows(rows, nid), Severed(rows, nid, t))
  {
    var n := rows[nid];
    var b := BifurcatedRows(rows, nid, n.treeId, n.depth, t);
    var d := DeletedRows(rows, nid);
    var s := Severed(rows, nid, t);
    DeletedKeys(rows, nid);
    KeysSplit(rows.Keys, d.Keys, s.Keys);
    forall k | k in d
      ensures b[k] == d[k]
    {
      BifurcatedOutside(rows, nid, t, k);
    }
    forall k | k in s
      ensures b[k] == s[k]
    {
      BifurcatedInside(rows, nid, t, k);
    }
  }

  /** The survivors of a delete keep their tree ids, so they stay apart from the cut-out tree under a fresh id. */
  lemma SurvivorsApart(rows: Rows, nid: Id, t: int)
    requires MoveSetting(rows, nid, t)
    ensures Apart(DeletedRows(rows, nid), Severed(rows, nid, t))
  {
    var d := DeletedRows(rows, nid);
    var s := Severed(rows, nid, t);
    DeletedKeys(rows, nid);
    forall i, j | i in d && j in s
      ensures d[i].treeId != s[j].treeId
    {
      SurvivorRow(rows, nid, i);
    }
  }

  /** A tree put beside a forest apart from it keeps its root's row, subtree and ancestors. */
  lemma RootBeside(u: Rows, a: Rows, c: Rows, root: Id)
    requires Union(u, a, c) && Apart(a, c) && root in c
    ensures u[root] == c[root]
    ensures SubtreeIds(u, root) == SubtreeIds(c, root) && AncestorIds(u, root) == AncestorIds(c, root)
  {
    OthersOfSecond(u, a, c, root);
    PartSelections(u, c, root);
  }

  /**
    `_bifurcate` of a valid table, for a fresh instance, gives a valid table:
    the source tree is dense again and the node is the root of a new tree
    at `[1, 2 * size]`, depth 0, over the same subtree.
  */
  lemma BifurcateKeepsValid(rows: Rows, nid: Id)
    requires Valid(rows) && nid in rows
    ensures var n := rows[nid]; var b := BifurcatedRows(rows, nid, n.treeId, n.depth, NextTreeId(rows));
      && Valid(b)
      && b[nid].left == 1 && b[nid].right == 2 * |SubtreeIds(rows, nid)| && b[nid].depth == 0
      && SubtreeIds(b, nid) == SubtreeIds(rows, nid)
      && AncestorIds(b, nid) == {}
  {
    var n := rows[nid];
    var t := NextTreeId(rows);
    assert MoveSetting(rows, nid, t);
    BifurcatedSplit(rows, nid, t);
    DeletionKeepsValid(rows, nid);
    SeveredValid(rows, nid, t);
    SurvivorsApart(rows, nid, t);
    var b := BifurcatedRows(rows, nid, n.treeId, n.depth, t);
    ForestUnion(b, DeletedRows(rows, nid), Severed(rows, nid, t));
    RootBeside(b, DeletedRows(rows, nid), Severed(rows, nid, t), nid);
  }

  // ---------------------------------------------------------------------
  // Grafting a tree under a parent
  // ---------------------------------------------------------------------

  /** A row of a one-tree table numbered from 1, moved under `p`: just after `p`'s `_left`, one level below `p`. */
  function Joined(row: Row, p: Row): Row {
    row.(treeId := p.treeId, left := row.left + p.left, right := row.right + p.left, depth := row.depth + p.depth + 1)
  }

  /**
    The tree `s`, rooted at `root` and numbered from 1, grafted under `parent`
    of `d`: `d` opens a gap as wide as `s` just after the parent's `_left`,
    `s` fills it, and the root records the parent.
  */
  function GraftedUnder(d: Rows, s: Rows, parent: Id, root: Id): (g: Rows)
    requires parent in d && root in s
    ensures g.Keys == d.Keys + s.Keys
  {
    var p := d[parent];
    map k | k in d.Keys + s.Keys ::
      if k in d then HostOpened(d[k], p.treeId, p.left + 1, s[root].right)
      else if k == root then Joined(s[k], p).(parent := Some(parent))
      else Joined(s[k], p)
  }

  /** The premises of a graft: two shaped tables with disjoint keys, `s` one tree under `root` numbered from 1. */
  ghost predicate GraftSetting(d: Rows, s: Rows, parent: Id, root: Id) {
    && Shaped(d) && Shaped(s) && parent in d && root in s
    && (forall k :: k in s ==> k !in d)
    && SubtreeIds(s, root) == s.Keys
    && s[root].left == 1
  }

  /** The rows of `d` open a gap of width `w` just after `pl`, in tree `pt`. */
  ghost predicate GraftHosts(g: Rows, d: Rows, pt: int, pl: int, w: int) {
    forall k :: k in d ==> k in g && g[k] == HostOpened(d[k], pt, pl + 1, w)
  }

  /** The rows of `s` move into tree `pt`, on by `pl` and `pd + 1` levels down. */
  ghost predicate GraftGuests(g: Rows, s: Rows, pt: int, pl: int, pd: int) {
    forall k :: k in s ==>
      && k in g && g[k].treeId == pt
      && g[k].left == s[k].left + pl && g[k].right == s[k].right + pl
      && g[k].depth == s[k].depth + pd + 1
  }

  /** What the proofs below read from a graft, row by row, without the parent link. */
  ghost predicate GraftShape(g: Rows, d: Rows, s: Rows, parent: Id, root: Id)
    requires parent in d && root in s
  {
    var p := d[parent];
    && g.Keys == d.Keys + s.Keys
    && GraftHosts(g, d, p.treeId, p.left, s[root].right)
    && GraftGuests(g, s, p.treeId, p.left, p.depth)
  }

  lemma GraftedUnderShape(d: Rows, s: Rows, parent: Id, root: Id)
    requires parent in d && root in s && (forall k :: k in s ==> k !in d)
    ensures GraftShape(GraftedUnder(d, s, parent, root), d, s, parent, root)
    ensures GraftedUnder(d, s, parent, root)[root].parent == Some(parent)
  {
  }

  /** Opening a gap keeps the order of any two endpoints. */
  lemma OpenedKeepsOrder(x: int, y: int, pivot: int, w: int)
    requires w >= 0
    ensures x < y <==> Opened(x, pivot, w) < Opened(y, pivot, w)
  {
  }

  /** The rows of `d` keep their trees and the order of their endpoints. */
  lemma HostsKeepOrder(g: Rows, d: Rows, s: Rows, parent: Id, root: Id)
    requires GraftSetting(d, s, parent, root) && GraftShape(g, d, s, parent, root)
    ensures OrderKept(d, g, d.Keys)
  {
    var p := d[parent];
    var w := s[root].right;
    assert Ordered(s[root]);
    forall j, k | j in d && k in d
      ensures d[j].treeId == d[k].treeId <==> g[j].treeId == g[k].treeId
      ensures d[j].treeId == d[k].treeId ==>
              && (d[j].left < d[k].left <==> g[j].left < g[k].left)
              && (d[j].right < d[k].right <==> g[j].right < g[k].right)
              && (d[j].right < d[k].left <==> g[j].right < g[k].left)
              && (d[j].left < d[k].right <==> g[j].left < g[k].right)
    {
      if d[j].treeId == p.treeId && d[k].treeId == p.treeId {
        OpenedKeepsOrder(d[j].left, d[k].left, p.left + 1, w);
        OpenedKeepsOrder(d[j].right, d[k].right, p.left + 1, w);
        OpenedKeepsOrder(d[j].right, d[k].left, p.left + 1, w);
        OpenedKeepsOrder(d[j].left, d[k].right, p.left + 1, w);
      }
    }
  }

  /** The rows of `s` keep the order of their endpoints; they share one tree before and after. */
  lemma GuestsKeepOrder(g: Rows, d: Rows, s: Rows, parent: Id, root: Id)
    requires GraftSetting(d, s, parent, root) && GraftShape(g, d, s, parent, root)
    ensures OrderKept(s, g, s.Keys)
  {
    forall k | k in s
      ensures s[k].treeId == s[root].treeId
    {
      assert k in SubtreeIds(s, root);
    }
  }

  /** A row of `s` lies in the gap `[parent.left + 1, parent.left + width]`. */
  lemma GuestInGap(g: Rows, d: Rows, s: Rows, parent: Id, root: Id, k: Id)
    requires GraftSetting(d, s, parent, root) && GraftShape(g, d, s, parent, root) && k in s
    ensures d[parent].left + 1 <= g[k].left < g[k].right <= d[parent].left + s[root].right
  {
    assert k in SubtreeIds(s, root);
    assert Ordered(s[k]);
  }

  /** In the parent's tree, a row spans the parent's `_left` exactly when it is the parent or encloses it. */
  lemma SpansParentLeft(d: Rows, parent: Id, h: Id)
    requires Shaped(d) && parent in d && h in d && d[h].treeId == d[parent].treeId
    ensures (d[h].left <= d[parent].left < d[h].right) <==> Within(d[parent], d[h])
  {
    assert Ordered(d[parent]);
    if h != parent {
      assert Nested(d[h], d[parent]);
    }
  }

  /** A row of `d` never lies within a grafted row, and encloses every one exactly when it held the parent. */
  lemma CrossPlaced(g: Rows, d: Rows, s: Rows, parent: Id, root: Id, h: Id, k: Id)
    requires GraftSetting(d, s, parent, root) && GraftShape(g, d, s, parent, root)
    requires h in d && k in s
    ensures !Within(g[h], g[k])
    ensures Inside(g[k], g[h]) <==> Within(d[parent], d[h])
    ensures g[h].treeId == g[k].treeId ==> Nested(g[h], g[k])
  {
    GuestInGap(g, d, s, parent, root, k);
    assert Ordered(d[h]);
    if d[h].treeId == d[parent].treeId {
      SpansParentLeft(d, parent, h);
    }
  }

  /** A row of `d` gains the whole of `s` in its subtree exactly when it held the parent. */
  lemma HostSubtree(g: Rows, d: Rows, s: Rows, parent: Id, root: Id, h: Id)
    requires GraftSetting(d, s, parent, root) && GraftShape(g, d, s, parent, root) && h in d
    ensures SubtreeIds(g, h) == SubtreeIds(d, h) + (if Within(d[parent], d[h]) then s.Keys else {})
  {
    HostsKeepOrder(g, d, s, parent, root);
    SelectionsKept(d, g, d.Keys, h);
    forall j
      ensures j in SubtreeIds(g, h) <==> j in SubtreeIds(d, h) || (j in s && Within(d[parent], d[h]))
    {
      if j in s {
        CrossPlaced(g, d, s, parent, root, h, j);
      } else if j in d {
        assert j in SubtreeIds(g, h) <==> j in SubtreeIds(g, h) * d.Keys;
        assert j in SubtreeIds(d, h) <==> j in SubtreeIds(d, h) * d.Keys;
      }
    }
  }

  /** A row of `d` keeps its ancestors: no grafted row encloses it. */
  lemma HostAncestors(g: Rows, d: Rows, s: Rows, parent: Id, root: Id, h: Id)
    requires GraftSetting(d, s, parent, root) && GraftShape(g, d, s, parent, root) && h in d
    ensures AncestorIds(g, h) == AncestorIds(d, h)
  {
    HostsKeepOrder(g, d, s, parent, root);
    SelectionsKept(d, g, d.Keys, h);
    forall j
      ensures j in AncestorIds(g, h) <==> j in AncestorIds(d, h)
    {
      if j in s {
        CrossPlaced(g, d, s, parent, root, h, j);
      } else if j in d {
        assert j in AncestorIds(g, h) <==> j in AncestorIds(g, h) * d.Keys;
        assert j in AncestorIds(d, h) <==> j in AncestorIds(d, h) * d.Keys;
      }
    }
  }

  /** A grafted row keeps its subtree: no row of `d` lies within it. */
  lemma GuestSubtree(g: Rows, d: Rows, s: Rows, parent: Id, root: Id, k: Id)
    requires GraftSetting(d, s, parent, root) && GraftShape(g, d, s, parent, root) && k in s
    ensures SubtreeIds(g, k) == SubtreeIds(s, k)
  {
    GuestsKeepOrder(g, d, s, parent, root);
    SelectionsKept(s, g, s.Keys, k);
    forall j
      ensures j in SubtreeIds(g, k) <==> j in SubtreeIds(s, k)
    {
      if j in d {
        CrossPlaced(g, d, s, parent, root, j, k);
      } else if j in s {
        assert j in SubtreeIds(g, k) <==> j in SubtreeIds(g, k) * s.Keys;
        assert j in SubtreeIds(s, k) <==> j in SubtreeIds(s, k) * s.Keys;
      }
    }
  }

  /** The rows enclosing the parent, with the parent, are exactly the rows within which the parent lies. */
  lemma WithinParent(d: Rows, parent: Id, h: Id)
    requires Shaped(d) && parent in d && h in d
    ensures Within(d[parent], d[h]) <==> h == parent || h in AncestorIds(d, parent)
  {
    if h != parent && Within(d[parent], d[h]) {
      EndpointsDistinct(d, h, parent);
    }
  }

  /** A grafted row's ancestors are its ancestors in `s`, the parent and the parent's ancestors. */
  lemma GuestAncestors(g: Rows, d: Rows, s: Rows, parent: Id, root: Id, k: Id)
    requires GraftSetting(d, s, parent, root) && GraftShape(g, d, s, parent, root) && k in s
    ensures AncestorIds(g, k) == AncestorIds(s, k) + AncestorIds(d, parent) + {parent}
  {
    GuestsKeepOrder(g, d, s, parent, root);
    SelectionsKept(s, g, s.Keys, k);
    forall j
      ensures j in AncestorIds(g, k) <==> j in AncestorIds(s, k) || j in AncestorIds(d, parent) || j == parent
    {
      if j in d {
        CrossPlaced(g, d, s, parent, root, j, k);
        WithinParent(d, parent, j);
      } else if j in s {
        assert j in AncestorIds(g, k) <==> j in AncestorIds(g, k) * s.Keys;
        assert j in AncestorIds(s, k) <==> j in AncestorIds(s, k) * s.Keys;
      }
    }
  }

  /** The graft is shaped: every interval well formed, and every two rows of one tree nested. */
  lemma GraftShaped(g: Rows, d: Rows, s: Rows, parent: Id, root: Id)
    requires GraftSetting(d, s, parent, root) && GraftShape(g, d, s, parent, root)
    ensures Shaped(g)
  {
    HostsKeepOrder(g, d, s, parent, root);
    GuestsKeepOrder(g, d, s, parent, root);
    NestingKept(d, g, d.Keys);
    NestingKept(s, g, s.Keys);
    forall k | k in g
      ensures Ordered(g[k])
    {
      if k in d {
        assert Ordered(d[k]);
      } else {
        assert Ordered(s[k]);
      }
    }
    forall i, j | i in g && j in g && i != j && g[i].treeId == g[j].treeId
      ensures Nested(g[i], g[j])
    {
      if i in d && j in s {
        CrossPlaced(g, d, s, parent, root, i, j);
      } else if i in s && j in d {
        CrossPlaced(g, d, s, parent, root, j, i);
      }
    }
  }

  /** A row of `d` that was sized, leveled and rooted stays so: its span grows by the graft's width exactly when its subtree gains `s`. */
  lemma HostRowValid(g: Rows, d: Rows, s: Rows, parent: Id, root: Id, h: Id)
    requires GraftSetting(d, s, parent, root) && GraftShape(g, d, s, parent, root) && h in d
    requires s[root].right - s[root].left + 1 == 2 * |SubtreeIds(s, root)|
    requires d[h].right - d[h].left + 1 == 2 * |SubtreeIds(d, h)|
    requires d[h].depth == |AncestorIds(d, h)|
    requires AncestorIds(d, h) == {} ==> d[h].left == 1
    ensures g[h].right - g[h].left + 1 == 2 * |SubtreeIds(g, h)|
    ensures g[h].depth == |AncestorIds(g, h)|
    ensures AncestorIds(g, h) == {} ==> g[h].left == 1
  {
    HostSubtree(g, d, s, parent, root, h);
    HostAncestors(g, d, s, parent, root, h);
    assert Ordered(d[parent]) && Ordered(d[h]);
    if d[h].treeId == d[parent].treeId {
      SpansParentLeft(d, parent, h);
    }
    assert SubtreeIds(d, h) * s.Keys == {};
  }

  /** A row of `s` that was sized and leveled stays so, one level deeper per ancestor it gains. */
  lemma GuestRowValid(g: Rows, d: Rows, s: Rows, parent: Id, root: Id, k: Id)
    requires GraftSetting(d, s, parent, root) && GraftShape(g, d, s, parent, root) && k in s
    requires s[k].right - s[k].left + 1 == 2 * |SubtreeIds(s, k)|
    requires s[k].depth == |AncestorIds(s, k)|
    requires d[parent].depth == |AncestorIds(d, parent)|
    ensures g[k].right - g[k].left + 1 == 2 * |SubtreeIds(g, k)|
    ensures g[k].depth == |AncestorIds(g, k)|
    ensures AncestorIds(g, k) != {}
  {
    GuestSubtree(g, d, s, parent, root, k);
    GuestAncestors(g, d, s, parent, root, k);
    assert AncestorIds(s, k) * (AncestorIds(d, parent) + {parent}) == {};
    assert parent !in AncestorIds(d, parent);
  }

  /** A graft of two valid tables. */
  ghost predicate ValidGraft(g: Rows, d: Rows, s: Rows, parent: Id, root: Id) {
    Valid(d) && Valid(s) && GraftSetting(d, s, parent, root) && GraftShape(g, d, s, parent, root)
  }

  /** One row of a graft of valid tables is sized, leveled and rooted. */
  lemma GraftRowValid(g: Rows, d: Rows, s: Rows, parent: Id, root: Id, k: Id)
    requires ValidGraft(g, d, s, parent, root) && k in g
    ensures g[k].right - g[k].left + 1 == 2 * |SubtreeIds(g, k)|
    ensures g[k].depth == |AncestorIds(g, k)|
    ensures AncestorIds(g, k) == {} ==> g[k].left == 1
  {
    if k in d {
      HostRowValid(g, d, s, parent, root, k);
    } else {
      GuestRowValid(g, d, s, parent, root, k);
    }
  }

  /** Grafting a valid one-tree table under a row of a valid table gives a valid table. */
  lemma GraftKeepsValid(g: Rows, d: Rows, s: Rows, parent: Id, root: Id)
    requires ValidGraft(g, d, s, parent, root)
    ensures Valid(g)
  {
    GraftShaped(g, d, s, parent, root);
    GraftRowsValid(g, d, s, parent, root);
  }

  /** Every row of a graft of valid tables is sized, leveled and rooted. */
  lemma GraftRowsValid(g: Rows, d: Rows, s: Rows, parent: Id, root: Id)
    requires ValidGraft(g, d, s, parent, root)
    ensures Sized(g) && Leveled(g) && Rooted(g)
  {
    forall k | k in g
      ensures g[k].right - g[k].left + 1 == 2 * |SubtreeIds(g, k)|
      ensures g[k].depth == |AncestorIds(g, k)|
      ensures AncestorIds(g, k) == {} ==> g[k].left == 1
    {
      GraftRowValid(g, d, s, parent, root, k);
    }
  }

  // ---------------------------------------------------------------------
  // Moving under a parent
  // ---------------------------------------------------------------------

  /** A survivor of the delete-like close, in the closed form the move steps use. */
  lemma SurvivorClosed(rows: Rows, nid: Id, k: Id)
    requires Shaped(rows) && nid in rows && k in DeletedRows(rows, nid)
    requires rows[nid].right - rows[nid].left + 1 == 2 * |SubtreeIds(rows, nid)|
    ensures k in rows && k !in SubtreeIds(rows, nid)
    ensures DeletedRows(rows, nid)[k] == HostClosed(rows[k], rows[nid])
  {
    SurvivorRow(rows, nid, k);
  }

  /** The new parent survives the delete-like close, in its closed form. */
  lemma ParentClosed(rows: Rows, nid: Id, parent: Id)
    requires Shaped(rows) && nid in rows && parent in rows && parent !in SubtreeIds(rows, nid)
    requires rows[nid].right - rows[nid].left + 1 == 2 * |SubtreeIds(rows, nid)|
    ensures parent in DeletedRows(rows, nid)
    ensures var c := DeletedRows(rows, nid)[parent];
      && c.treeId == rows[parent].treeId && c.depth == rows[parent].depth
      && c.left == PivotAfterClose(rows, nid, Some(parent))
  {
    DeletedKeys(rows, nid);
    SurvivorClosed(rows, nid, parent);
  }

  /** A row outside the subtree ends as the survivor of a delete, opened after the parent's `_left`. */
  lemma MovedOutside(rows: Rows, nid: Id, t: int, parent: Id, k: Id)
    requires MoveSetting(rows, nid, t) && parent in rows && parent !in SubtreeIds(rows, nid)
    requires k in DeletedRows(rows, nid)
    ensures var n := rows[nid];
      MovedRows(rows, nid, n.treeId, Some(parent), t)[k]
        == HostOpened(DeletedRows(rows, nid)[k], rows[parent].treeId, PivotAfterClose(rows, nid, Some(parent)) + 1, Width(n))
  {
    SurvivorClosed(rows, nid, k);
    MovedHostRow(rows, nid, t, parent, k);
  }

  /** A row of the subtree ends as its cut-out row, joined under the closed parent. */
  lemma MovedInside(rows: Rows, nid: Id, t: int, parent: Id, k: Id)
    requires MoveSetting(rows, nid, t) && parent in rows && parent !in SubtreeIds(rows, nid)
    requires k in SubtreeIds(rows, nid)
    ensures var n := rows[nid]; var m := MovedRows(rows, nid, n.treeId, Some(parent), t);
      var pl := PivotAfterClose(rows, nid, Some(parent)); var r := Severed(rows, nid, t)[k];
      && m[k].treeId == rows[parent].treeId
      && m[k].left == r.left + pl && m[k].right == r.right + pl
      && m[k].depth == r.depth + rows[parent].depth + 1
  {
    MovedRow(rows, nid, t, parent, k);
  }

  /** The rows outside the subtree, all at once. */
  lemma MovedHosts(rows: Rows, nid: Id, t: int, parent: Id)
    requires MoveSetting(rows, nid, t) && parent in rows && parent !in SubtreeIds(rows, nid)
    ensures GraftHosts(MovedRows(rows, nid, rows[nid].treeId, Some(parent), t), DeletedRows(rows, nid),
      rows[parent].treeId, PivotAfterClose(rows, nid, Some(parent)), Width(rows[nid]))
  {
    forall k | k in DeletedRows(rows, nid)
      ensures MovedRows(rows, nid, rows[nid].treeId, Some(parent), t)[k]
        == HostOpened(DeletedRows(rows, nid)[k], rows[parent].treeId, PivotAfterClose(rows, nid, Some(parent)) + 1, Width(rows[nid]))
    {
      MovedOutside(rows, nid, t, parent, k);
    }
  }

  /** The rows of the subtree, all at once. */
  lemma MovedGuests(rows: Rows, nid: Id, t: int, parent: Id)
    requires MoveSetting(rows, nid, t) && parent in rows && parent !in SubtreeIds(rows, nid)
    ensures GraftGuests(MovedRows(rows, nid, rows[nid].treeId, Some(parent), t), Severed(rows, nid, t),
      rows[parent].treeId, PivotAfterClose(rows, nid, Some(parent)), rows[parent].depth)
  {
    forall k | k in Severed(rows, nid, t)
      ensures var m := MovedRows(rows, nid, rows[nid].treeId, Some(parent), t); var s := Severed(rows, nid, t);
        var pl := PivotAfterClose(rows, nid, Some(parent));
        && m[k].treeId == rows[parent].treeId
        && m[k].left == s[k].left + pl && m[k].right == s[k].right + pl
        && m[k].depth == s[k].depth + rows[parent].depth + 1
    {
      MovedInside(rows, nid, t, parent, k);
    }
  }

  /** `_move_node` under a parent is the cut-out subtree grafted under the parent of the closed table. */
  lemma MovedSplit(rows: Rows, nid: Id, t: int, parent: Id)
    requires MoveSetting(rows, nid, t) && parent in rows && parent !in SubtreeIds(rows, nid)
    ensures parent in DeletedRows(rows, nid) && nid in Severed(rows, nid, t)
    ensures GraftShape(MovedRows(rows, nid, rows[nid].treeId, Some(parent), t), DeletedRows(rows, nid), Severed(rows, nid, t), parent, nid)
  {
    var d := DeletedRows(rows, nid);
    var s := Severed(rows, nid, t);
    ParentClosed(rows, nid, parent);
    SeveredRoot(rows, nid, t);
    DeletedKeys(rows, nid);
    KeysSplit(rows.Keys, d.Keys, s.Keys);
    MovedHosts(rows, nid, t, parent);
    MovedGuests(rows, nid, t, parent);
  }

  /** The new parent's closed row keeps the parent's ancestors and depth. */
  lemma ParentFacts(rows: Rows, nid: Id, parent: Id)
    requires Valid(rows) && nid in rows && parent in rows && parent !in SubtreeIds(rows, nid)
    ensures parent in DeletedRows(rows, nid)
    ensures AncestorIds(DeletedRows(rows, nid), parent) == AncestorIds(rows, parent)
  {
    ParentClosed(rows, nid, parent);
    SurvivorsKeepOrder(rows, nid);
    SurvivorAncestors(rows, nid, parent);
  }

  /** On a valid table the next tree id is fresh, so the move's steps apply. */
  lemma MoveSetUp(rows: Rows, nid: Id)
    requires Valid(rows) && nid in rows
    ensures MoveSetting(rows, nid, NextTreeId(rows))
  {
    assert rows[nid].right - rows[nid].left + 1 == 2 * |SubtreeIds(rows, nid)|;
  }

  /** A parent the cycle check lets through lies outside the node's subtree. */
  lemma OutsideCycle(rows: Rows, nid: Id, parent: Id)
    requires Shaped(rows) && nid in rows && !CreatesCycle(rows, nid, Some(parent))
    ensures parent !in SubtreeIds(rows, nid)
  {
    SubtreeIsNodeAndDescendants(rows, nid);
  }

  /**
    A valid graft of `s` under `parent` in `d`, `s` one tree rooted at `root`
    at depth 0 over `subtree`, the parent's ancestors in `d` being
    `ancestors`, and the root linked to the parent.
  */
  ghost predicate GraftParts(g: Rows, d: Rows, s: Rows, parent: Id, root: Id, ancestors: set<Id>, subtree: set<Id>) {
    && parent in d && root in s && root in g && ValidGraft(g, d, s, parent, root)
    && s[root].depth == 0 && AncestorIds(s, root) == {} && s.Keys == subtree
    && AncestorIds(d, parent) == ancestors && g[root].parent == Some(parent)
  }

  /** The move's two parts are valid and form a graft under the parent. */
  lemma MoveGraft(rows: Rows, nid: Id, t: int, parent: Id)
    requires Valid(rows) && MoveSetting(rows, nid, t) && parent in rows && parent !in SubtreeIds(rows, nid)
    ensures GraftParts(MovedRows(rows, nid, rows[nid].treeId, Some(parent), t), DeletedRows(rows, nid),
      Severed(rows, nid, t), parent, nid, AncestorIds(rows, parent), SubtreeIds(rows, nid))
  {
    MovedSplit(rows, nid, t, parent);
    DeletionKeepsValid(rows, nid);
    SeveredValid(rows, nid, t);
    SeveredRoot(rows, nid, t);
    ParentFacts(rows, nid, parent);
    DeletedKeys(rows, nid);
    MovedLink(rows, nid, t, parent);
  }

  /** The moved node links to its new parent. */
  lemma MovedLink(rows: Rows, nid: Id, t: int, parent: Id)
    requires MoveSetting(rows, nid, t) && parent in rows && parent !in SubtreeIds(rows, nid)
    ensures MovedRows(rows, nid, rows[nid].treeId, Some(parent), t)[nid].parent == Some(parent)
  {
    MovedRow(rows, nid, t, parent, nid);
  }

  /** A graft of a one-tree table, its root linked to the parent, is a valid table with the root placed under the parent. */
  lemma GraftedUnderParent(g: Rows, d: Rows, s: Rows, parent: Id, root: Id, ancestors: set<Id>, subtree: set<Id>)
    requires GraftParts(g, d, s, parent, root, ancestors, subtree)
    ensures && Valid(g)
      && g[root].parent == Some(parent)
      && g[root].left == g[parent].left + 1 && g[root].depth == g[parent].depth + 1
      && SubtreeIds(g, root) == subtree
      && AncestorIds(g, root) == ancestors + {parent}
  {
    GraftKeepsValid(g, d, s, parent, root);
    GraftedRoot(g, d, s, parent, root);
  }

  /**
    `_move_node` under a parent of a valid table, for a fresh instance and a
    parent outside the node's subtree, gives a valid table: the node is the
    parent's first child in preorder, one level below it, over the same
    subtree, and its ancestors are the parent and the parent's ancestors.
  */
  lemma MoveKeepsValid(rows: Rows, nid: Id, parent: Id)
    requires Valid(rows) && nid in rows && parent in rows && !CreatesCycle(rows, nid, Some(parent))
    ensures var m := MovedRows(rows, nid, rows[nid].treeId, Some(parent), NextTreeId(rows));
      && Valid(m)
      && m[nid].parent == Some(parent)
      && m[nid].left == m[parent].left + 1 && m[nid].depth == m[parent].depth + 1
      && SubtreeIds(m, nid) == SubtreeIds(rows, nid)
      && AncestorIds(m, nid) == AncestorIds(rows, parent) + {parent}
  {
    var t := NextTreeId(rows);
    var m := MovedRows(rows, nid, rows[nid].treeId, Some(parent), t);
    var d := DeletedRows(rows, nid);
    var s := Severed(rows, nid, t);
    MoveSetUp(rows, nid);
    OutsideCycle(rows, nid, parent);
    MoveGraft(rows, nid, t, parent);
    GraftedUnderParent(m, d, s, parent, nid, AncestorIds(rows, parent), SubtreeIds(rows, nid));
  }

  /** In a graft the root sits just after the parent's `_left`, one level below it, over its own subtree. */
  lemma GraftedRoot(g: Rows, d: Rows, s: Rows, parent: Id, root: Id)
    requires GraftSetting(d, s, parent, root) && GraftShape(g, d, s, parent, root)
    requires s[root].depth == 0 && AncestorIds(s, root) == {}
    ensures g[root].left == g[parent].left + 1 && g[root].depth == g[parent].depth + 1
    ensures SubtreeIds(g, root) == s.Keys
    ensures AncestorIds(g, root) == AncestorIds(d, parent) + {parent}
  {
    GuestSubtree(g, d, s, parent, root, root);
    GuestAncestors(g, d, s, parent, root, root);
    assert Ordered(s[root]);
  }
}
