/**
  AbstractNode: the read queries, the ASCII rendering, the node instance with
  its column defaults and `parent` setter, and the delegation of `move` and
  `bifurcate` to the manager.
*/
module Models {
  import opened Table
  import opened Managers

  // ---------------------------------------------------------------------
  // get_children, get_ancestors, get_descendants
  // ---------------------------------------------------------------------

  /** The key of a query without `order_by`: every row ties, so primary-key order decides. */
  function NoKey(r: Row): int { 0 }

  /** `get_children`: the rows whose `_parent` is `k`. */
  function Children(rows: Rows, k: Id): (r: seq<Id>)
    ensures forall j :: j in r <==> j in rows && rows[j].parent == Some(k)
    ensures forall i :: 0 <= i < |r| ==> r[i] in rows && rows[r[i]].parent == Some(k)
    ensures forall i, j :: 0 <= i < j < |r| ==> r[i] < r[j]
  {
    OrderBy(NoKey, rows, ChildIds(rows, k))
  }

  /**
    `get_ancestors`: the rows of `k`'s tree whose interval strictly encloses
    `k`'s, by ascending `_right`; `None` when `k` is not stored (`get` raises).
  */
  function Ancestors(rows: Rows, k: Id): (r: Option<seq<Id>>)
    ensures r.None? <==> k !in rows
    ensures r.Some? ==> forall j :: j in r.value <==>
      j in rows && rows[j].treeId == rows[k].treeId && rows[j].left < rows[k].left && rows[j].right > rows[k].right
    ensures r.Some? ==> forall i :: 0 <= i < |r.value| ==> r.value[i] in rows
    ensures r.Some? ==> forall i, j :: 0 <= i < j < |r.value| ==> rows[r.value[i]].right <= rows[r.value[j]].right
    ensures r.Some? ==> |r.value| == |AncestorIds(rows, k)|
  {
    if k !in rows then None
    else Some(OrderBy(RightOf, rows, AncestorIds(rows, k)))
  }

  /**
    `get_descendants`: the rows of `k`'s tree whose interval lies strictly
    inside `k`'s, by ascending `_left` (preorder); `None` when `k` is not stored.
  */
  function Descendants(rows: Rows, k: Id): (r: Option<seq<Id>>)
    ensures r.None? <==> k !in rows
    ensures r.Some? ==> forall j :: j in r.value <==>
      j in rows && rows[j].treeId == rows[k].treeId && rows[j].left > rows[k].left && rows[j].right < rows[k].right
    ensures r.Some? ==> forall i :: 0 <= i < |r.value| ==> r.value[i] in rows
    ensures r.Some? ==> forall i, j :: 0 <= i < j < |r.value| ==> rows[r.value[i]].left <= rows[r.value[j]].left
    ensures r.Some? ==> |r.value| == |DescendantIds(rows, k)|
  {
    if k !in rows then None
    else Some(OrderBy(LeftOf, rows, DescendantIds(rows, k)))
  }

  /** `a` is listed among `d`'s ancestors exactly when `d` is listed among `a`'s descendants. */
  lemma AncestorsMirrorDescendants(rows: Rows, a: Id, d: Id)
    requires a in rows && d in rows
    ensures a in Ancestors(rows, d).value <==> d in Descendants(rows, a).value
  {
    var up := Ancestors(rows, d).value;
    var down := Descendants(rows, a).value;
    assert a in up <==> Inside(rows[d], rows[a]);
    assert d in down <==> Inside(rows[d], rows[a]);
  }

  // ---------------------------------------------------------------------
  // _tree_lines and get_ascii_tree
  // ---------------------------------------------------------------------

  /**
    The `_parent` links have no cycle: following a link always climbs in
    `rank`. `_tree_lines` recurses along these links and terminates only then.
  */
  predicate LinksRanked(rows: Rows, rank: Id -> nat) {
    forall j :: j in rows && rows[j].parent.Some? ==> rank(j) < rank(rows[j].parent.value)
  }

  const Branch: string := " +-- "
  const Pipe: string := " |   "
  const Blank: string := "     "

  /** A child's lines as its parent yields them: `Branch` on the first, `Blank` (last child) or `Pipe` on the rest. */
  function Indented(lines: seq<string>, last: bool): (r: seq<string>)
    ensures |r| == |lines|
    ensures forall i :: 0 <= i < |r| ==> |r[i]| == 5 + |lines[i]| && r[i][5..] == lines[i]
    ensures |r| > 0 ==> r[0][..5] == Branch
    ensures forall i :: 1 <= i < |r| ==> r[i][..5] == (if last then Blank else Pipe)
  {
    seq(|lines|, i requires 0 <= i < |lines| => (if i == 0 then Branch else if last then Blank else Pipe) + lines[i])
  }

  /** The lines `_tree_lines` yields for a node named `name` stored under `k`: its name, then each child's block. */
  function Lines(rows: Rows, rank: Id -> nat, name: string, k: Id): (lines: seq<string>)
    requires LinksRanked(rows, rank)
    ensures |lines| >= 1 && lines[0] == name
    decreases rank(k), 1
  {
    [name] + ChildBlocks(rows, rank, k, Children(rows, k))
  }

  /** Every id of `cs` is stored with `_parent` pointing at `k`. */
  predicate AllChildrenOf(rows: Rows, k: Id, cs: seq<Id>) {
    forall i :: 0 <= i < |cs| ==> cs[i] in rows && rows[cs[i]].parent == Some(k)
  }

  /** The blocks of the children `cs`, a suffix of `k`'s children; the block of the last child is the one without pipes. */
  function ChildBlocks(rows: Rows, rank: Id -> nat, k: Id, cs: seq<Id>): seq<string>
    requires LinksRanked(rows, rank)
    requires AllChildrenOf(rows, k, cs)
    decreases rank(k), 0, |cs|
  {
    if cs == [] then []
    else
      assert rank(cs[0]) < rank(k);
      Indented(Lines(rows, rank, rows[cs[0]].name, cs[0]), |cs| == 1) + ChildBlocks(rows, rank, k, cs[1..])
  }

  /** `'\n'.join(lines)`. */
  function JoinLines(lines: seq<string>): string {
    if |lines| == 0 then ""
    else if |lines| == 1 then lines[0]
    else lines[0] + "\n" + JoinLines(lines[1..])
  }

  /** `get_ascii_tree`. */
  function AsciiTree(rows: Rows, rank: Id -> nat, name: string, k: Id): string
    requires LinksRanked(rows, rank)
  {
    JoinLines(Lines(rows, rank, name, k))
  }

  /** Below its first line, every line of a rendering starts with one of the three five-character prefixes. */
  lemma {:induction false} LinesPrefixed(rows: Rows, rank: Id -> nat, name: string, k: Id)
    requires LinksRanked(rows, rank)
    ensures forall i :: 1 <= i < |Lines(rows, rank, name, k)| ==>
      |Lines(rows, rank, name, k)[i]| >= 5 && Lines(rows, rank, name, k)[i][..5] in {Branch, Pipe, Blank}
  {
    ChildBlocksPrefixed(rows, rank, k, Children(rows, k));
  }

  lemma {:induction false} ChildBlocksPrefixed(rows: Rows, rank: Id -> nat, k: Id, cs: seq<Id>)
    requires LinksRanked(rows, rank)
    requires AllChildrenOf(rows, k, cs)
    ensures forall i :: 0 <= i < |ChildBlocks(rows, rank, k, cs)| ==>
      |ChildBlocks(rows, rank, k, cs)[i]| >= 5 && ChildBlocks(rows, rank, k, cs)[i][..5] in {Branch, Pipe, Blank}
    decreases |cs|
  {
    if cs != [] {
      var block := Indented(Lines(rows, rank, rows[cs[0]].name, cs[0]), |cs| == 1);
      ChildBlocksPrefixed(rows, rank, k, cs[1..]);
      var rest := ChildBlocks(rows, rank, k, cs[1..]);
      assert ChildBlocks(rows, rank, k, cs) == block + rest;
      forall i | 0 <= i < |block + rest|
        ensures |(block + rest)[i]| >= 5 && (block + rest)[i][..5] in {Branch, Pipe, Blank}
      {
        if i < |block| {
          assert (block + rest)[i] == block[i];
        } else {
          assert (block + rest)[i] == rest[i - |block|];
        }
      }
    }
  }

  /** The rendering of a node without children is its name alone. */
  lemma ChildlessRendersName(rows: Rows, rank: Id -> nat, name: string, k: Id)
    requires LinksRanked(rows, rank)
    requires ChildIds(rows, k) == {}
    ensures Lines(rows, rank, name, k) == [name]
    ensures AsciiTree(rows, rank, name, k) == name
  {
    assert Children(rows, k) == [];
  }

  /** Following `_parent` links from `j` leads to `k` (in no steps when `j` is `k`). */
  predicate Reaches(rows: Rows, rank: Id -> nat, j: Id, k: Id)
    requires LinksRanked(rows, rank)
    decreases rank(k) - rank(j)
  {
    j == k ||
    (j in rows && rows[j].parent.Some? && rank(j) < rank(k) && Reaches(rows, rank, rows[j].parent.value, k))
  }

  /** The stored rows whose `_parent` links lead to `k`, `k` itself excluded. */
  function Below(rows: Rows, rank: Id -> nat, k: Id): set<Id>
    requires LinksRanked(rows, rank)
  {
    set j | j in rows && j != k && Reaches(rows, rank, j, k)
  }

  /** The rows under the children `cs`, each child included. */
  function Covered(rows: Rows, rank: Id -> nat, cs: seq<Id>): set<Id>
    requires LinksRanked(rows, rank)
  {
    if cs == [] then {} else {cs[0]} + Below(rows, rank, cs[0]) + Covered(rows, rank, cs[1..])
  }

  /** The rendering has one line per row under `k`, plus `k`'s own. */
  lemma {:induction false} LinesCount(rows: Rows, rank: Id -> nat, name: string, k: Id)
    requires LinksRanked(rows, rank)
    ensures |Lines(rows, rank, name, k)| == 1 + |Below(rows, rank, k)|
    decreases rank(k), 1
  {
    var cs := Children(rows, k);
    BlocksCount(rows, rank, k, cs);
    CoveredIsBelow(rows, rank, k);
  }

  lemma {:induction false} BlocksCount(rows: Rows, rank: Id -> nat, k: Id, cs: seq<Id>)
    requires LinksRanked(rows, rank)
    requires AllChildrenOf(rows, k, cs)
    requires forall i, i' :: 0 <= i < i' < |cs| ==> cs[i] != cs[i']
    ensures |ChildBlocks(rows, rank, k, cs)| == |Covered(rows, rank, cs)|
    decreases rank(k), 0, |cs|
  {
    if cs != [] {
      var c := cs[0];
      assert rank(c) < rank(k);
      LinesCount(rows, rank, rows[c].name, c);
      SuffixChildren(rows, k, cs);
      BlocksCount(rows, rank, k, cs[1..]);
      var sub := {c} + Below(rows, rank, c);
      var rest := Covered(rows, rank, cs[1..]);
      assert c !in Below(rows, rank, c);
      SiblingsApart(rows, rank, k, cs);
      assert sub * rest == {};
      assert |sub + rest| == |sub| + |rest| by {
        DisjointUnionSize(sub, rest);
      }
    }
  }

  lemma DisjointUnionSize(a: set<Id>, b: set<Id>)
    requires a * b == {}
    ensures |a + b| == |a| + |b|
  {
  }

  /** A row reaches at least its own rank's height: links only climb. */
  lemma {:induction false} ReachesClimbs(rows: Rows, rank: Id -> nat, j: Id, k: Id)
    requires LinksRanked(rows, rank)
    requires Reaches(rows, rank, j, k) && j != k
    ensures rank(j) < rank(k)
  {
  }

  lemma {:induction false} ReachesTransitive(rows: Rows, rank: Id -> nat, j: Id, c: Id, k: Id)
    requires LinksRanked(rows, rank)
    requires Reaches(rows, rank, j, c) && Reaches(rows, rank, c, k)
    ensures Reaches(rows, rank, j, k)
    decreases rank(c) - rank(j)
  {
    if j != c {
      ReachesTransitive(rows, rank, rows[j].parent.value, c, k);
    }
  }

  /** Two rows both reached from `j` lie on one chain of links. */
  lemma {:induction false} ReachesChain(rows: Rows, rank: Id -> nat, j: Id, a: Id, b: Id)
    requires LinksRanked(rows, rank)
    requires Reaches(rows, rank, j, a) && Reaches(rows, rank, j, b)
    ensures Reaches(rows, rank, a, b) || Reaches(rows, rank, b, a)
    decreases rank(a) - rank(j)
  {
    if j != a && j != b {
      ReachesChain(rows, rank, rows[j].parent.value, a, b);
    }
  }

  /** The first of the children `cs` shares no row with the others' subtrees. */
  lemma SiblingsApart(rows: Rows, rank: Id -> nat, k: Id, cs: seq<Id>)
    requires LinksRanked(rows, rank)
    requires |cs| > 0 && AllChildrenOf(rows, k, cs)
    requires forall i, i' :: 0 <= i < i' < |cs| ==> cs[i] != cs[i']
    ensures ({cs[0]} + Below(rows, rank, cs[0])) * Covered(rows, rank, cs[1..]) == {}
  {
    forall j | j in ({cs[0]} + Below(rows, rank, cs[0])) && j in Covered(rows, rank, cs[1..])
      ensures false
    {
      var i := CoveredBy(rows, rank, cs[1..], j);
      var a, b := cs[0], cs[1..][i];
      assert b == cs[i + 1];
      ChildDistinct(rows, rank, k, j, a, b);
    }
  }

  /** No row lies under two different children of `k`. */
  lemma ChildDistinct(rows: Rows, rank: Id -> nat, k: Id, j: Id, a: Id, b: Id)
    requires LinksRanked(rows, rank)
    requires a in rows && rows[a].parent == Some(k) && b in rows && rows[b].parent == Some(k)
    requires Reaches(rows, rank, j, a) && Reaches(rows, rank, j, b)
    ensures a == b
  {
    ReachesChain(rows, rank, j, a, b);
    if a != b {
      if Reaches(rows, rank, a, b) {
        ReachesClimbs(rows, rank, k, b);
      } else {
        ReachesClimbs(rows, rank, k, a);
      }
    }
  }

  /** A covered row lies under one of the children. */
  lemma {:induction false} CoveredBy(rows: Rows, rank: Id -> nat, cs: seq<Id>, j: Id) returns (i: nat)
    requires LinksRanked(rows, rank)
    requires j in Covered(rows, rank, cs)
    ensures i < |cs| && Reaches(rows, rank, j, cs[i])
    decreases |cs|
  {
    if j == cs[0] || j in Below(rows, rank, cs[0]) {
      i := 0;
    } else {
      var i' := CoveredBy(rows, rank, cs[1..], j);
      i := i' + 1;
    }
  }

  /** The rows under the children of `k`, children included, are the rows under `k`. */
  lemma CoveredIsBelow(rows: Rows, rank: Id -> nat, k: Id)
    requires LinksRanked(rows, rank)
    ensures Covered(rows, rank, Children(rows, k)) == Below(rows, rank, k)
  {
    var cs := Children(rows, k);
    forall j | j in Covered(rows, rank, cs)
      ensures j in Below(rows, rank, k)
    {
      var i := CoveredBy(rows, rank, cs, j);
      var c := cs[i];
      CoveredIn(rows, rank, cs, j, i);
      assert rank(c) < rank(k) && Reaches(rows, rank, c, k);
      ReachesTransitive(rows, rank, j, c, k);
      if j != c {
        ReachesClimbs(rows, rank, j, c);
      }
    }
    forall j | j in Below(rows, rank, k)
      ensures j in Covered(rows, rank, cs)
    {
      var c := TopChild(rows, rank, j, k);
      var i :| 0 <= i < |cs| && cs[i] == c;
      CoveredHas(rows, rank, cs, j, i);
    }
  }

  /** A row under `k` lies under (or is) one of `k`'s children. */
  lemma {:induction false} TopChild(rows: Rows, rank: Id -> nat, j: Id, k: Id) returns (c: Id)
    requires LinksRanked(rows, rank)
    requires Reaches(rows, rank, j, k) && j != k
    ensures c in rows && rows[c].parent == Some(k) && Reaches(rows, rank, j, c)
    decreases rank(k) - rank(j)
  {
    var p := rows[j].parent.value;
    if p == k {
      c := j;
    } else {
      c := TopChild(rows, rank, p, k);
      if p != c {
        ReachesClimbs(rows, rank, p, c);
      }
    }
  }

  /** A row is covered when it lies under one of the children. */
  lemma {:induction false} CoveredHas(rows: Rows, rank: Id -> nat, cs: seq<Id>, j: Id, i: nat)
    requires LinksRanked(rows, rank)
    requires i < |cs| && j in rows && Reaches(rows, rank, j, cs[i])
    ensures j in Covered(rows, rank, cs)
    decreases |cs|
  {
    if i > 0 {
      assert cs[1..][i - 1] == cs[i];
      CoveredHas(rows, rank, cs[1..], j, i - 1);
    }
  }

  /** A covered row is stored. */
  lemma {:induction false} CoveredIn(rows: Rows, rank: Id -> nat, cs: seq<Id>, j: Id, i: nat)
    requires LinksRanked(rows, rank)
    requires i < |cs| && (forall i' :: 0 <= i' < |cs| ==> cs[i'] in rows) && Reaches(rows, rank, j, cs[i])
    ensures j in rows
  {
  }

  /**
    `_tree_lines`: the name, then for every child the child's own lines, the
    first behind `' +-- '` and the rest behind a prefix that turns to
    `'     '` below the last child and `' |   '` below the others.
  */
  method TreeLines(rows: Rows, rank: Id -> nat, name: string, k: Id) returns (lines: seq<string>)
    requires LinksRanked(rows, rank)
    ensures lines == Lines(rows, rank, name, k)
    decreases rank(k)
  {
    lines := [name];
    var children := Children(rows, k);
    var last: Option<Id> := if |children| > 0 then Some(children[|children| - 1]) else None;
    var i := 0;
    while i < |children|
      invariant 0 <= i <= |children|
      invariant AllChildrenOf(rows, k, children[i..])
      invariant lines + ChildBlocks(rows, rank, k, children[i..]) == Lines(rows, rank, name, k)
    {
      var child := children[i];
      assert rank(child) < rank(k);
      var childLines := TreeLines(rows, rank, rows[child].name, child);
      var isLast := Some(child) == last;
      assert isLast <==> i == |children| - 1;
      ChildBlocksStep(rows, rank, k, children, i);
      ghost var before := lines;
      lines := YieldIndented(lines, childLines, isLast);
      ConcatAssociates(before, Indented(childLines, isLast), ChildBlocks(rows, rank, k, children[i + 1..]));
      i := i + 1;
    }
  }

  /** Emitting the block of child `i` turns the blocks of `cs[i..]` into those of `cs[i + 1..]`. */
  lemma ChildBlocksStep(rows: Rows, rank: Id -> nat, k: Id, cs: seq<Id>, i: nat)
    requires LinksRanked(rows, rank)
    requires i < |cs| && AllChildrenOf(rows, k, cs[i..])
    ensures AllChildrenOf(rows, k, cs[i + 1..])
    ensures ChildBlocks(rows, rank, k, cs[i..])
         == Indented(Lines(rows, rank, rows[cs[i]].name, cs[i]), i == |cs| - 1) + ChildBlocks(rows, rank, k, cs[i + 1..])
  {
    var rest := cs[i..];
    assert rest[0] == cs[i] && rest[1..] == cs[i + 1..];
    SuffixChildren(rows, k, rest);
  }

  lemma SuffixChildren(rows: Rows, k: Id, cs: seq<Id>)
    requires |cs| > 0 && AllChildrenOf(rows, k, cs)
    ensures AllChildrenOf(rows, k, cs[1..])
  {
    forall j | 0 <= j < |cs| - 1
      ensures cs[1..][j] in rows && rows[cs[1..][j]].parent == Some(k)
    {
      assert cs[1..][j] == cs[j + 1];
    }
  }

  lemma ConcatAssociates(a: seq<string>, b: seq<string>, c: seq<string>)
    ensures a + (b + c) == (a + b) + c
  {
  }

  /** The inner loop of `_tree_lines`: yield each of a child's lines behind the running prefix. */
  method YieldIndented(lines: seq<string>, childLines: seq<string>, isLast: bool) returns (out: seq<string>)
    ensures out == lines + Indented(childLines, isLast)
  {
    ghost var block := Indented(childLines, isLast);
    out := lines;
    var prefix := Branch;
    var j := 0;
    while j < |childLines|
      invariant 0 <= j <= |childLines|
      invariant out == lines + block[..j]
      invariant prefix == if j == 0 then Branch else if isLast then Blank else Pipe
    {
      out := out + [prefix + childLines[j]];
      prefix := if isLast then Blank else Pipe;
      j := j + 1;
    }
    assert block[..j] == block;
  }

  // ---------------------------------------------------------------------
  // The node instance
  // ---------------------------------------------------------------------

  datatype SetParentOutcome =
    | Assigned
    | UnsupportedAction(message: string)
    | NoParentToRead   // `parent._depth` on `None` raises after `_parent` is cleared

  const MoveRequired: string := "You must use `move` to assign a new parent to an existing node."

  /** One in-memory AbstractNode instance; its columns go stale when other code changes the stored row. */
  class NodeInstance {
    var pk: Option<Id>
    /** The instance the `_parent` descriptor caches, and the key it recorded on assignment. */
    var parent: NodeInstance?
    var parentId: Option<Id>
    var left: int
    var right: int
    var depth: int
    var treeId: int
    var deleting: bool
    var name: string

    /** A new, unsaved node with the column defaults: a one-node tree under the next free `_tree_id`. */
    constructor (m: NodeManager, name: string)
      ensures pk == None && parent == null && parentId == None
      ensures left == 1 && right == 2 && depth == 0 && !deleting
      ensures treeId == NextTreeId(m.rows)
      ensures treeId !in set k | k in m.rows :: m.rows[k].treeId
      ensures this.name == name
    {
      var t := m.GetNextTreeId();
      pk := None;
      parent := null;
      parentId := None;
      left := 1;
      right := 2;
      depth := 0;
      treeId := t;
      deleting := false;
      this.name := name;
    }

    /** The row a save writes for this instance. */
    function AsRow(): Row
      reads this
    {
      Row(parentId, left, right, depth, treeId, deleting, name)
    }

    /** The `parent` setter. */
    method SetParent(p: NodeInstance?) returns (outcome: SetParentOutcome)
      modifies this
      ensures old(pk).Some? ==> outcome == UnsupportedAction(MoveRequired) && unchanged(this)
      ensures old(pk).None? && p == null ==>
        && outcome == NoParentToRead
        && parent == null && parentId == None
        && AsRow() == old(AsRow()).(parent := None)
      ensures old(pk).None? && p != null ==>
        && outcome == Assigned
        && parent == p && parentId == old(p.pk)
        && AsRow() == old(AsRow()).(parent := old(p.pk), depth := old(p.depth) + 1, treeId := old(p.treeId))
      ensures pk == old(pk)
    {
      if pk.Some? {
        return UnsupportedAction(MoveRequired);
      }
      if p == null {
        parent := null;
        parentId := None;
        return NoParentToRead;
      }
      var parentDepth := p.depth;
      var parentTreeId := p.treeId;
      var parentPk := p.pk;
      parent := p;
      parentId := parentPk;
      depth := parentDepth + 1;
      treeId := parentTreeId;
      outcome := Assigned;
    }

    /**
      `move`: the manager's `_move_node` on this instance. An unsaved instance
      is looked up by a `None` key and not found. An unsaved new parent equals
      no stored node, so it passes the cycle check; the subtree is detached and
      its gap closed before the parent's `get` by a `None` key fails.
    */
    method Move(m: NodeManager, newParent: NodeInstance?) returns (outcome: MoveOutcome)
      modifies m
      ensures outcome == NodeDoesNotExist <==> pk.None? || pk.value !in old(m.rows)
      ensures outcome == NodeDoesNotExist ==> m.rows == old(m.rows)
      ensures pk.Some? && pk.value in old(m.rows) ==>
        var target := if newParent == null then None else newParent.pk;
        && (outcome == InvalidNodeMove <==> target.Some? && CreatesCycle(old(m.rows), pk.value, target))
        && (outcome == InvalidNodeMove ==> m.rows == old(m.rows))
        && (outcome == ParentDoesNotExist <==> newParent != null && !(target.Some? && target.value in old(m.rows)))
        && (outcome == ParentDoesNotExist ==>
              m.rows == SourceEdgesClosed(Detached(old(m.rows), pk.value, NextTreeId(old(m.rows))), treeId, pk.value))
        && (outcome == Moved ==> m.rows == MovedRows(old(m.rows), pk.value, treeId, target, NextTreeId(old(m.rows))))
    {
      if pk.None? {
        return NodeDoesNotExist;
      }
      if newParent != null && newParent.pk.None? {
        if pk.value !in m.rows {
          return NodeDoesNotExist;
        }
        m.DetachSubtree(pk.value);
        m.RenumberSourceTreeEdges(treeId, pk.value);
        return ParentDoesNotExist;
      }
      var target := if newParent == null then None else newParent.pk;
      outcome := m.MoveNode(pk.value, treeId, target);
    }

    /** `bifurcate`: the manager's `_bifurcate` on this instance. */
    method Bifurcate(m: NodeManager) returns (outcome: MoveOutcome)
      modifies m
      ensures outcome == NodeDoesNotExist <==> pk.None? || pk.value !in old(m.rows)
      ensures outcome == NodeDoesNotExist ==> m.rows == old(m.rows)
      ensures outcome != NodeDoesNotExist ==>
        outcome == Moved && m.rows == BifurcatedRows(old(m.rows), pk.value, treeId, depth, NextTreeId(old(m.rows)))
    {
      if pk.None? {
        return NodeDoesNotExist;
      }
      outcome := m.Bifurcate(pk.value, treeId, depth);
    }
  }
}
