/**
  The nested-set invariant the engine maintains, and the facts about it that
  every preservation proof uses: within a tree the intervals are properly
  nested or disjoint, a node's interval is exactly twice as wide as its
  subtree is large, its depth counts its ancestors, and a root starts at 1.
*/
module Invariant {
  import opened Table

  /** One row's interval is well formed. */
  predicate Ordered(r: Row) {
    1 <= r.left < r.right
  }

  /** Any two rows of one tree are disjoint or one lies strictly inside the other. */
  ghost predicate WellNested(rows: Rows) {
    forall j, k :: j in rows && k in rows && j != k && rows[j].treeId == rows[k].treeId ==> Nested(rows[j], rows[k])
  }

  /** `_right - _left + 1` is twice the number of rows in the subtree. */
  ghost predicate Sized(rows: Rows) {
    forall k :: k in rows ==> rows[k].right - rows[k].left + 1 == 2 * |SubtreeIds(rows, k)|
  }

  /** `_depth` is the number of ancestors. */
  ghost predicate Leveled(rows: Rows) {
    forall k :: k in rows ==> rows[k].depth == |AncestorIds(rows, k)|
  }

  /** A row without ancestors is a root and starts at 1. */
  ghost predicate Rooted(rows: Rows) {
    forall k :: k in rows && AncestorIds(rows, k) == {} ==> rows[k].left == 1
  }

  /** Every interval well formed, and the intervals of each tree properly nested. */
  ghost predicate Shaped(rows: Rows) {
    (forall k :: k in rows ==> Ordered(rows[k])) && WellNested(rows)
  }

  ghost predicate Valid(rows: Rows) {
    && Shaped(rows)
    && Sized(rows)
    && Leveled(rows)
    && Rooted(rows)
  }

  // ---------------------------------------------------------------------
  // Consequences of the invariant
  // ---------------------------------------------------------------------

  /** Distinct rows of one tree share no endpoint. */
  lemma EndpointsDistinct(rows: Rows, j: Id, k: Id)
    requires j in rows && k in rows && j != k && rows[j].treeId == rows[k].treeId
    requires Ordered(rows[j]) && Ordered(rows[k]) && WellNested(rows)
    ensures rows[j].left != rows[k].left && rows[j].left != rows[k].right
    ensures rows[j].right != rows[k].left && rows[j].right != rows[k].right
  {
    assert Nested(rows[j], rows[k]);
  }

  /** A subtree is the node and its descendants. */
  lemma SubtreeIsNodeAndDescendants(rows: Rows, k: Id)
    requires k in rows && Shaped(rows)
    ensures SubtreeIds(rows, k) == DescendantIds(rows, k) + {k}
    ensures k !in DescendantIds(rows, k)
    ensures |SubtreeIds(rows, k)| == |DescendantIds(rows, k)| + 1
  {
    forall j | j in SubtreeIds(rows, k) && j != k
      ensures j in DescendantIds(rows, k)
    {
      EndpointsDistinct(rows, j, k);
    }
  }

  /** Under the invariant the width the manager computes from the descendant count is the node's span. */
  lemma WidthIsSpan(rows: Rows, k: Id)
    requires k in rows && Shaped(rows)
    requires rows[k].right - rows[k].left + 1 == 2 * |SubtreeIds(rows, k)|
    ensures (|DescendantIds(rows, k)| + 1) * 2 == rows[k].right - rows[k].left + 1
  {
    SubtreeIsNodeAndDescendants(rows, k);
  }

  /**
    A row outside `n`'s subtree, in `n`'s tree, has both endpoints outside
    `n`'s interval; if it encloses any row of the subtree it encloses `n`.
  */
  lemma OutsideSubtree(rows: Rows, n: Id, k: Id)
    requires n in rows && k in rows && k !in SubtreeIds(rows, n)
    requires rows[k].treeId == rows[n].treeId
    requires Shaped(rows)
    ensures rows[k].right < rows[n].left || rows[n].right < rows[k].left || Inside(rows[n], rows[k])
  {
    assert Nested(rows[k], rows[n]);
  }

  // ---------------------------------------------------------------------
  // Updates that keep the order of endpoints
  // ---------------------------------------------------------------------

  /** Closing a gap of width `w` that ends at `r`: endpoints at or past `r` move back by `w`. */
  function Closed(x: int, r: int, w: int): int {
    if x >= r then x - w else x
  }

  /** Opening a gap of width `w` at `pivot`: endpoints at or past `pivot` move on by `w`. */
  function Opened(x: int, pivot: int, w: int): int {
    if x >= pivot then x + w else x
  }

  /** Closing a gap keeps the order of endpoints that lie outside the removed interval. */
  lemma ClosedKeepsOrder(x: int, y: int, l: int, r: int)
    requires l <= r
    requires x < l || x > r
    requires y < l || y > r
    ensures x < y <==> Closed(x, r, r - l + 1) < Closed(y, r, r - l + 1)
  {
  }

  /**
    On the keys `K`, table `b` partitions rows into trees as `a` does and
    keeps the order of every two endpoints of one tree.
  */
  ghost predicate OrderKept(a: Rows, b: Rows, K: set<Id>) {
    && K <= a.Keys && K <= b.Keys
    && forall j, k :: j in K && k in K ==>
         && (a[j].treeId == a[k].treeId <==> b[j].treeId == b[k].treeId)
         && (a[j].treeId == a[k].treeId ==>
              && (a[j].left < a[k].left <==> b[j].left < b[k].left)
              && (a[j].right < a[k].right <==> b[j].right < b[k].right)
              && (a[j].right < a[k].left <==> b[j].right < b[k].left)
              && (a[j].left < a[k].right <==> b[j].left < b[k].right))
  }

  lemma RelationsKept(a: Rows, b: Rows, K: set<Id>, j: Id, k: Id)
    requires OrderKept(a, b, K) && j in K && k in K
    ensures Within(a[j], a[k]) <==> Within(b[j], b[k])
    ensures Inside(a[j], a[k]) <==> Inside(b[j], b[k])
    ensures a[j].treeId == a[k].treeId ==> (Nested(a[j], a[k]) <==> Nested(b[j], b[k]))
  {
  }

  /** Order-keeping updates select the same subtrees, descendants and ancestors among `K`. */
  lemma SelectionsKept(a: Rows, b: Rows, K: set<Id>, k: Id)
    requires OrderKept(a, b, K) && k in K
    ensures SubtreeIds(b, k) * K == SubtreeIds(a, k) * K
    ensures DescendantIds(b, k) * K == DescendantIds(a, k) * K
    ensures AncestorIds(b, k) * K == AncestorIds(a, k) * K
  {
    forall j | j in K
      ensures (j in SubtreeIds(b, k) <==> j in SubtreeIds(a, k))
      ensures (j in DescendantIds(b, k) <==> j in DescendantIds(a, k))
      ensures (j in AncestorIds(b, k) <==> j in AncestorIds(a, k))
    {
      RelationsKept(a, b, K, j, k);
      RelationsKept(a, b, K, k, j);
    }
  }

  /** Order-keeping updates keep the rows of `K` nested. */
  lemma NestingKept(a: Rows, b: Rows, K: set<Id>)
    requires OrderKept(a, b, K) && WellNested(a)
    ensures forall j, k :: j in K && k in K && j != k && b[j].treeId == b[k].treeId ==> Nested(b[j], b[k])
  {
    forall j, k | j in K && k in K && j != k && b[j].treeId == b[k].treeId
      ensures Nested(b[j], b[k])
    {
      RelationsKept(a, b, K, j, k);
    }
  }

  // ---------------------------------------------------------------------
  // Density: a tree's endpoints are exactly 1 to 2n
  // ---------------------------------------------------------------------

  function Lefts(rows: Rows, ks: set<Id>): set<int> {
    set j | j in ks && j in rows :: rows[j].left
  }

  function Rights(rows: Rows, ks: set<Id>): set<int> {
    set j | j in ks && j in rows :: rows[j].right
  }

  /** Every `_left` and `_right` of the rows `ks`. */
  function Endpoints(rows: Rows, ks: set<Id>): set<int> {
    Lefts(rows, ks) + Rights(rows, ks)
  }

  /** The integers 1 to `n`. */
  function UpTo(n: nat): (r: set<int>)
    ensures forall x :: x in r <==> 1 <= x <= n
    ensures |r| == n
  {
    if n == 0 then {} else UpTo(n - 1) + {n}
  }

  /**
    Under the invariant the tree of a root `r` is its subtree, and its
    `2n` endpoints are each of the integers 1 to `2n` once: the numbering
    has no gaps and no shared edges.
  */
  lemma ValidIsDense(rows: Rows, r: Id)
    requires Valid(rows) && r in rows && AncestorIds(rows, r) == {}
    ensures SubtreeIds(rows, r) == TreeIds(rows, rows[r].treeId)
    ensures rows[r].left == 1 && rows[r].right == 2 * |SubtreeIds(rows, r)|
    ensures |Endpoints(rows, SubtreeIds(rows, r))| == 2 * |SubtreeIds(rows, r)|
    ensures Endpoints(rows, SubtreeIds(rows, r)) == UpTo(rows[r].right)
  {
    var ks := SubtreeIds(rows, r);
    TreeOfRoot(rows, r);
    assert rows[r].right - rows[r].left + 1 == 2 * |ks|;
    EndpointsCount(rows, r);
    EndpointsWithin(rows, r);
    SameSizeSubset(Endpoints(rows, ks), UpTo(rows[r].right));
  }

  /** The endpoints of a subtree lie within the subtree's root interval. */
  lemma EndpointsWithin(rows: Rows, r: Id)
    requires r in rows && Ordered(rows[r]) && forall k :: k in rows ==> Ordered(rows[k])
    ensures Endpoints(rows, SubtreeIds(rows, r)) <= UpTo(rows[r].right)
  {
    var ks := SubtreeIds(rows, r);
    forall x | x in Endpoints(rows, ks)
      ensures 1 <= x <= rows[r].right
    {
      if x in Lefts(rows, ks) {
        var j :| j in ks && j in rows && rows[j].left == x;
        assert Ordered(rows[j]);
      } else {
        var j :| j in ks && j in rows && rows[j].right == x;
        assert Ordered(rows[j]);
      }
    }
  }

  /** A subset as large as the whole set is the whole set. */
  lemma SameSizeSubset(a: set<int>, b: set<int>)
    requires a <= b && |a| == |b|
    ensures a == b
  {
    assert b == a + (b - a);
  }

  /** A subtree's rows have twice as many endpoints as rows: no two share one. */
  lemma EndpointsCount(rows: Rows, r: Id)
    requires Shaped(rows) && r in rows
    ensures |Endpoints(rows, SubtreeIds(rows, r))| == 2 * |SubtreeIds(rows, r)|
  {
    var ks := SubtreeIds(rows, r);
    forall j, k | j in ks && k in ks && j != k
      ensures rows[j].left != rows[k].left && rows[j].right != rows[k].right
    {
      EndpointsDistinct(rows, j, k);
    }
    LeftsCount(rows, ks);
    RightsCount(rows, ks);
    forall x | x in Lefts(rows, ks) && x in Rights(rows, ks)
      ensures false
    {
      var j :| j in ks && j in rows && rows[j].left == x;
      var k :| k in ks && k in rows && rows[k].right == x;
      assert Ordered(rows[j]);
      if j != k {
        EndpointsDistinct(rows, j, k);
      }
    }
    assert Lefts(rows, ks) * Rights(rows, ks) == {};
  }

  lemma {:induction false} LeftsCount(rows: Rows, ks: set<Id>)
    requires ks <= rows.Keys
    requires forall j, k :: j in ks && k in ks && j != k ==> rows[j].left != rows[k].left
    ensures |Lefts(rows, ks)| == |ks|
    decreases |ks|
  {
    if ks != {} {
      var k :| k in ks;
      var rest := ks - {k};
      LeftsCount(rows, rest);
      assert Lefts(rows, ks) == Lefts(rows, rest) + {rows[k].left};
    }
  }

  lemma {:induction false} RightsCount(rows: Rows, ks: set<Id>)
    requires ks <= rows.Keys
    requires forall j, k :: j in ks && k in ks && j != k ==> rows[j].right != rows[k].right
    ensures |Rights(rows, ks)| == |ks|
    decreases |ks|
  {
    if ks != {} {
      var k :| k in ks;
      var rest := ks - {k};
      RightsCount(rows, rest);
      assert Rights(rows, ks) == Rights(rows, rest) + {rows[k].right};
    }
  }

  /** Every row of a root's tree lies in the root's subtree. */
  lemma TreeOfRoot(rows: Rows, r: Id)
    requires Shaped(rows) && Rooted(rows) && r in rows && AncestorIds(rows, r) == {}
    ensures SubtreeIds(rows, r) == TreeIds(rows, rows[r].treeId)
    ensures rows[r].left == 1
  {
    forall j | j in TreeIds(rows, rows[r].treeId)
      ensures j in SubtreeIds(rows, r)
    {
      var top := Outermost(rows, j, AncestorIds(rows, j) + {j});
      if top != r {
        EndpointsDistinct(rows, top, r);
      }
      if j != top {
        assert Inside(rows[j], rows[top]);
      }
    }
  }

  /**
    Among `j` and its ancestors, the one with the smallest `_left` has no
    ancestors of its own, so it is a root and starts at 1.
  */
  lemma Outermost(rows: Rows, j: Id, cands: set<Id>) returns (top: Id)
    requires Rooted(rows) && j in rows && cands == AncestorIds(rows, j) + {j}
    ensures top in cands && AncestorIds(rows, top) == {} && rows[top].left == 1
    ensures rows[top].treeId == rows[j].treeId
  {
    top := LeastLeft(rows, cands);
    if a :| a in AncestorIds(rows, top) {
      assert false;
    }
  }

  /** An id of `ks` with the smallest `_left`. */
  lemma {:induction false} LeastLeft(rows: Rows, ks: set<Id>) returns (m: Id)
    requires ks != {} && ks <= rows.Keys
    ensures m in ks && forall k :: k in ks ==> rows[m].left <= rows[k].left
    decreases |ks|
  {
    var k :| k in ks;
    if ks == {k} {
      m := k;
    } else {
      var m' := LeastLeft(rows, ks - {k});
      m := if rows[k].left < rows[m'].left then k else m';
    }
  }
}
