/**
  The node table of a nested-set forest and the two things the engine asks
  of it: filtered bulk updates (`filter(...).update(...)`) and the interval
  selections that the read queries are built from.
*/
module Table {

  datatype Option<T> = None | Some(value: T)

  /** An auto-incremented primary key; it is never 0, so `if self.pk` is true exactly for a saved instance. */
  type Id = k: int | k >= 1 witness 1

  /**
    One stored row: the columns AbstractNode declares (`_parent`, `_left`,
    `_right`, `_depth`, `_tree_id`, `_deleting`) and the name the node's
    `str()` shows, which the library treats as opaque text.
  */
  datatype Row = Row(
    parent: Option<Id>,
    left: int,
    right: int,
    depth: int,
    treeId: int,
    deleting: bool,
    name: string)

  type Rows = map<Id, Row>

  // ---------------------------------------------------------------------
  // filter(...).update(...)
  // ---------------------------------------------------------------------

  datatype Column = Left | Right
  datatype Cmp = Gt | Gte | Lt | Lte

  /** One keyword lookup such as `_left__gt=v`. */
  datatype Bound = Bound(column: Column, cmp: Cmp, value: int)

  /** A `filter(_tree_id=treeId, ...)` call: the tree plus its column bounds. */
  datatype Filter = Filter(treeId: int, bounds: seq<Bound>)

  /** The right-hand side of one `update(...)` call. */
  datatype Change =
    | AddLeft(delta: int)                       // _left=F('_left') + delta
    | AddRight(delta: int)                      // _right=F('_right') + delta
    | AddDepth(delta: int)                      // _depth=F('_depth') + delta
    | SetTreeId(treeId: int)                    // _tree_id=treeId
    | SetTreeIdAddDepth(treeId: int, delta: int) // both of the above at once
    | SetDeleting                               // _deleting=True

  predicate Holds(b: Bound, r: Row) {
    var x := if b.column == Left then r.left else r.right;
    match b.cmp
    case Gt => x > b.value
    case Gte => x >= b.value
    case Lt => x < b.value
    case Lte => x <= b.value
  }

  predicate AllHold(bs: seq<Bound>, r: Row) {
    |bs| == 0 || (Holds(bs[0], r) && AllHold(bs[1..], r))
  }

  predicate Matches(f: Filter, r: Row) {
    r.treeId == f.treeId && AllHold(f.bounds, r)
  }

  lemma MatchesTree(t: int)
    ensures forall r :: Matches(Filter(t, []), r) <==> r.treeId == t
  {
  }

  lemma MatchesOne(t: int, b: Bound)
    ensures forall r :: Matches(Filter(t, [b]), r) <==> r.treeId == t && Holds(b, r)
  {
    forall r
      ensures Matches(Filter(t, [b]), r) <==> r.treeId == t && Holds(b, r)
    {
      assert [b][1..] == [];
      assert AllHold([b], r) == (Holds(b, r) && AllHold([], r));
    }
  }

  lemma MatchesTwo(t: int, b1: Bound, b2: Bound)
    ensures forall r :: Matches(Filter(t, [b1, b2]), r) <==> r.treeId == t && Holds(b1, r) && Holds(b2, r)
  {
    forall r
      ensures Matches(Filter(t, [b1, b2]), r) <==> r.treeId == t && Holds(b1, r) && Holds(b2, r)
    {
      assert [b1, b2][1..] == [b2];
      assert [b2][1..] == [];
      assert AllHold([b1, b2], r) == (Holds(b1, r) && AllHold([b2], r));
      assert AllHold([b2], r) == (Holds(b2, r) && AllHold([], r));
    }
  }

  function Apply(c: Change, r: Row): Row {
    match c
    case AddLeft(d) => r.(left := r.left + d)
    case AddRight(d) => r.(right := r.right + d)
    case AddDepth(d) => r.(depth := r.depth + d)
    case SetTreeId(t) => r.(treeId := t)
    case SetTreeIdAddDepth(t, d) => r.(treeId := t, depth := r.depth + d)
    case SetDeleting => r.(deleting := true)
  }

  /** The table after `filter(f).update(c)`: every matching row changed, all others as they were. */
  function UpdateRows(rows: Rows, f: Filter, c: Change): (r: Rows)
    ensures r.Keys == rows.Keys
    ensures forall k :: k in rows ==> r[k] == (if Matches(f, rows[k]) then Apply(c, rows[k]) else rows[k])
  {
    map k | k in rows :: if Matches(f, rows[k]) then Apply(c, rows[k]) else rows[k]
  }

  // ---------------------------------------------------------------------
  // Interval relations and the selections built on them
  // ---------------------------------------------------------------------

  /** `a` lies within `b`, bounds included (the detach filter). */
  predicate Within(a: Row, b: Row) {
    a.treeId == b.treeId && b.left <= a.left && a.right <= b.right
  }

  /** `a` lies strictly inside `b` (the descendants / ancestors filter). */
  predicate Inside(a: Row, b: Row) {
    a.treeId == b.treeId && b.left < a.left && a.right < b.right
  }

  /** Two intervals of one tree are disjoint or one strictly contains the other. */
  predicate Nested(a: Row, b: Row) {
    a.right < b.left || b.right < a.left || Inside(a, b) || Inside(b, a)
  }

  /** The rows of `k`'s subtree, `k` included. */
  function SubtreeIds(rows: Rows, k: Id): set<Id>
    requires k in rows
  {
    set j | j in rows && Within(rows[j], rows[k])
  }

  /** The rows `get_descendants` selects for `k`. */
  function DescendantIds(rows: Rows, k: Id): set<Id>
    requires k in rows
  {
    set j | j in rows && Inside(rows[j], rows[k])
  }

  /** The rows `get_ancestors` selects for `k`. */
  function AncestorIds(rows: Rows, k: Id): set<Id>
    requires k in rows
  {
    set j | j in rows && Inside(rows[k], rows[j])
  }

  /** The rows `get_children` selects for `k`. */
  function ChildIds(rows: Rows, k: Id): set<Id> {
    set j | j in rows && rows[j].parent == Some(k)
  }

  /** The rows of one tree. */
  function TreeIds(rows: Rows, t: int): set<Id> {
    set j | j in rows && rows[j].treeId == t
  }

  // ---------------------------------------------------------------------
  // Ordering a selection (`order_by`)
  // ---------------------------------------------------------------------

  /** `x` comes before `y` when ordered by `key`; equal keys fall back to the primary key. */
  predicate Before(key: Row -> int, rows: Rows, x: Id, y: Id)
    requires x in rows && y in rows
  {
    key(rows[x]) < key(rows[y]) || (key(rows[x]) == key(rows[y]) && x < y)
  }

  predicate SortedBy(key: Row -> int, rows: Rows, s: seq<Id>)
    requires forall i :: 0 <= i < |s| ==> s[i] in rows
  {
    forall i, j :: 0 <= i < j < |s| ==> Before(key, rows, s[i], s[j])
  }

  /** `x` is the element of `s` that `order_by` lists first. */
  predicate IsFirst(key: Row -> int, rows: Rows, s: set<Id>, x: Id)
    requires s <= rows.Keys
  {
    x in s && forall y :: y in s && y != x ==> Before(key, rows, x, y)
  }

  lemma {:induction false} FirstExists(key: Row -> int, rows: Rows, s: set<Id>)
    requires s != {} && s <= rows.Keys
    ensures exists x :: IsFirst(key, rows, s, x)
    ensures forall x, y :: IsFirst(key, rows, s, x) && IsFirst(key, rows, s, y) ==> x == y
  {
    var z :| z in s;
    if s == {z} {
      assert IsFirst(key, rows, s, z);
    } else {
      FirstExists(key, rows, s - {z});
      var x :| IsFirst(key, rows, s - {z}, x);
      if Before(key, rows, x, z) {
        assert IsFirst(key, rows, s, x);
      } else {
        forall y | y in s && y != z
          ensures Before(key, rows, z, y)
        {
          if y != x {
            assert Before(key, rows, x, y);
          }
        }
        assert IsFirst(key, rows, s, z);
      }
    }
  }

  /** The ids of `s` listed in the order `order_by` gives them. */
  function OrderBy(key: Row -> int, rows: Rows, s: set<Id>): (r: seq<Id>)
    requires s <= rows.Keys
    ensures |r| == |s|
    ensures forall x :: x in r <==> x in s
    ensures forall i :: 0 <= i < |r| ==> r[i] in rows
    ensures SortedBy(key, rows, r)
    decreases |s|
  {
    if s == {} then []
    else
      FirstExists(key, rows, s);
      var x :| IsFirst(key, rows, s, x);
      [x] + OrderBy(key, rows, s - {x})
  }

  function LeftOf(r: Row): int { r.left }
  function RightOf(r: Row): int { r.right }
}
