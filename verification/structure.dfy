/**
  The shape of the list a walk produces, read back from the rows alone: every row
  below the top is an entry of the children array of its parent row, which is the
  nearest row before it one level up (the list is the tree in pre-order); its prefix
  extends the parent's by one separator, and it is marked last exactly when it is the
  final entry of that array.
*/
module Structure {
  import opened Base
  import opened TreeItems
  import opened WidgetTree

  /** `row` shows entry `m >= i` of `kids`, and is marked last exactly when `m` is the final index. */
  ghost predicate EntryOf(kids: seq<NodeId>, i: nat, row: Row)
  {
    exists m :: i <= m < |kids| && kids[m] == row.node && row.last == (m == |kids| - 1)
  }

  /**
    Row `p` is the parent row of row `j`: one level up, the nearest such row before `j`
    (every row between is at least as deep as `j`), a node the walk opens, whose
    children array has `rows[j]` as an entry, and whose prefix and last flag give
    `rows[j]`'s prefix.
  */
  ghost predicate ParentRow(a: Arena, rs: seq<Row>, p: nat, j: nat)
    requires p < j < |rs|
  {
    && rs[p].depth + 1 == rs[j].depth
    && (forall q :: p < q < j ==> rs[q].depth >= rs[j].depth)
    && Opens(a, rs[p].node)
    && EntryOf(a[rs[p].node].children.kids, 0, rs[j])
    && rs[j].prefix == rs[p].prefix + [Sep(rs[p].last)]
  }

  ghost predicate HasParentRow(a: Arena, rs: seq<Row>, j: nat)
    requires j < |rs|
  {
    exists p :: 0 <= p < j && ParentRow(a, rs, p, j)
  }

  /**
    The rows below a node at depth `base` whose children array is `kids` (from index
    `i`) and whose children take the prefix `pre`: the top rows are entries of that
    array with that prefix, every deeper row has its parent row.
  */
  ghost predicate Linked(a: Arena, kids: seq<NodeId>, i: nat, pre: string, rs: seq<Row>, base: nat)
  {
    forall j :: 0 <= j < |rs| ==> LinkedAt(a, kids, i, pre, rs, base, j)
  }

  /** Row `j` is a top row with the given prefix and an entry of `kids`, or has its parent row. */
  ghost predicate LinkedAt(a: Arena, kids: seq<NodeId>, i: nat, pre: string, rs: seq<Row>, base: nat, j: nat)
    requires j < |rs|
  {
    if rs[j].depth == base + 1 then rs[j].prefix == pre && EntryOf(kids, i, rs[j])
    else HasParentRow(a, rs, j)
  }

  lemma ParentShift(a: Arena, xs: seq<Row>, ys: seq<Row>, p: nat, j: nat)
    requires p < j < |ys| && ParentRow(a, ys, p, j)
    ensures ParentRow(a, xs + ys, |xs| + p, |xs| + j)
  {
    var rs := xs + ys;
    assert rs[|xs| + p] == ys[p] && rs[|xs| + j] == ys[j];
    forall q | |xs| + p < q < |xs| + j
      ensures rs[q].depth >= rs[|xs| + j].depth
    {
      assert rs[q] == ys[q - |xs|];
    }
  }

  lemma ParentKept(a: Arena, xs: seq<Row>, ys: seq<Row>, p: nat, j: nat)
    requires p < j < |xs| && ParentRow(a, xs, p, j)
    ensures ParentRow(a, xs + ys, p, j)
  {
    var rs := xs + ys;
    assert rs[p] == xs[p] && rs[j] == xs[j];
    forall q | p < q < j
      ensures rs[q].depth >= rs[j].depth
    {
      assert rs[q] == xs[q];
    }
  }

  /** A row of `xs` keeps its linking in `xs + ys`. */
  lemma LinkedLeftAt(a: Arena, kids: seq<NodeId>, i: nat, pre: string, xs: seq<Row>, ys: seq<Row>, base: nat, j: nat)
    requires j < |xs|
    requires LinkedAt(a, kids, i, pre, xs, base, j)
    ensures LinkedAt(a, kids, i, pre, xs + ys, base, j)
  {
    assert (xs + ys)[j] == xs[j];
    if xs[j].depth != base + 1 {
      var p :| 0 <= p < j && ParentRow(a, xs, p, j);
      ParentKept(a, xs, ys, p, j);
    }
  }

  /** A row of `ys` keeps its linking in `xs + ys`. */
  lemma LinkedRightAt(a: Arena, kids: seq<NodeId>, i: nat, pre: string, xs: seq<Row>, ys: seq<Row>, base: nat, j: nat)
    requires j < |ys|
    requires LinkedAt(a, kids, i, pre, ys, base, j)
    ensures LinkedAt(a, kids, i, pre, xs + ys, base, |xs| + j)
  {
    assert (xs + ys)[|xs| + j] == ys[j];
    if ys[j].depth != base + 1 {
      var p :| 0 <= p < j && ParentRow(a, ys, p, j);
      ParentShift(a, xs, ys, p, j);
    }
  }

  lemma LinkedAppend(a: Arena, kids: seq<NodeId>, i: nat, pre: string, xs: seq<Row>, ys: seq<Row>, base: nat)
    requires Linked(a, kids, i, pre, xs, base) && Linked(a, kids, i, pre, ys, base)
    ensures Linked(a, kids, i, pre, xs + ys, base)
  {
    var rs := xs + ys;
    forall j | 0 <= j < |rs|
      ensures LinkedAt(a, kids, i, pre, rs, base, j)
    {
      if j < |xs| {
        LinkedLeftAt(a, kids, i, pre, xs, ys, base, j);
      } else {
        var j' := j - |xs|;
        LinkedRightAt(a, kids, i, pre, xs, ys, base, j');
        assert |xs| + j' == j;
      }
    }
  }

  lemma LinkedWiden(a: Arena, kids: seq<NodeId>, i: nat, pre: string, rs: seq<Row>, base: nat)
    requires Linked(a, kids, i + 1, pre, rs, base)
    ensures Linked(a, kids, i, pre, rs, base)
  {
    forall j | 0 <= j < |rs|
      ensures LinkedAt(a, kids, i, pre, rs, base, j)
    {
      assert LinkedAt(a, kids, i + 1, pre, rs, base, j);
      if rs[j].depth == base + 1 {
        var m :| i + 1 <= m < |kids| && kids[m] == rs[j].node && rs[j].last == (m == |kids| - 1);
      }
    }
  }

  /** A row that opens is the parent row of the top rows that follow it. */
  lemma HeadIsParent(a: Arena, head: Row, srs: seq<Row>, j: nat)
    requires j < |srs| && Opens(a, head.node)
    requires forall q :: 0 <= q < |srs| ==> srs[q].depth > head.depth
    requires srs[j].depth == head.depth + 1
    requires srs[j].prefix == head.prefix + [Sep(head.last)]
    requires EntryOf(a[head.node].children.kids, 0, srs[j])
    ensures ParentRow(a, [head] + srs, 0, j + 1)
  {
    var rs := [head] + srs;
    assert rs[j + 1] == srs[j];
    forall q | 0 < q < j + 1
      ensures rs[q].depth >= rs[j + 1].depth
    {
      assert rs[q] == srs[q - 1];
    }
  }

  /** A row followed by the rows below it: the row is the parent of their top rows. */
  lemma LinkedCons(a: Arena, kids: seq<NodeId>, i: nat, pre: string, row: Row, srs: seq<Row>, base: nat)
    requires i < |kids| && kids[i] == row.node && row.last == (i == |kids| - 1)
    requires row.depth == base + 1 && row.prefix == pre
    requires srs != [] ==> Opens(a, row.node)
    requires Opens(a, row.node) ==>
      Linked(a, a[row.node].children.kids, 0, pre + [Sep(row.last)], srs, base + 1)
    requires forall j :: 0 <= j < |srs| ==> srs[j].depth > base + 1
    ensures Linked(a, kids, i, pre, [row] + srs, base)
  {
    var rs := [row] + srs;
    assert EntryOf(kids, i, rs[0]);
    assert LinkedAt(a, kids, i, pre, rs, base, 0);
    forall j | 1 <= j < |rs|
      ensures LinkedAt(a, kids, i, pre, rs, base, j)
    {
      var j' := j - 1;
      assert rs[j] == srs[j'];
      assert LinkedAt(a, a[row.node].children.kids, 0, pre + [Sep(row.last)], srs, base + 1, j');
      if srs[j'].depth == base + 2 {
        HeadIsParent(a, row, srs, j');
      } else {
        var p :| 0 <= p < j' && ParentRow(a, srs, p, j');
        ParentShift(a, [row], srs, p, j');
      }
    }
  }

  lemma {:induction false} DumpLinked(style: Style, a: Arena, kids: seq<NodeId>, depth: nat, pre: string, i: nat)
    requires depth < MaxDepth && i <= |kids| && |pre| == depth + 2
    requires DumpChildren(style, a, kids, depth, pre, i).Ok?
    ensures Linked(a, kids, i, pre, DumpChildren(style, a, kids, depth, pre, i).value, depth)
    decreases MaxDepth - depth, |kids| - i
  {
    var rs := DumpChildren(style, a, kids, depth, pre, i).value;
    if i == |kids| {
    } else if kids[i] !in a {
      DumpLinked(style, a, kids, depth, pre, i + 1);
      LinkedWiden(a, kids, i, pre, rs, depth);
    } else {
      var c := a[kids[i]];
      var last := i == |kids| - 1;
      var row := Row(kids[i], depth + 1, pre, last, Render(style, c, pre, last));
      var sub :=
        if Opens(a, kids[i]) then DumpChildren(style, a, c.children.kids, depth + 1, pre + [Sep(last)], 0)
        else Ok([]);
      var rest := DumpChildren(style, a, kids, depth, pre, i + 1);
      assert sub.Ok? && rest.Ok?;
      var srs := sub.value;
      assert rs == [row] + srs + rest.value;
      if Opens(a, kids[i]) {
        DumpLinked(style, a, c.children.kids, depth + 1, pre + [Sep(last)], 0);
      }
      LinkedCons(a, kids, i, pre, row, srs, depth);
      DumpLinked(style, a, kids, depth, pre, i + 1);
      LinkedWiden(a, kids, i, pre, rest.value, depth);
      LinkedAppend(a, kids, i, pre, [row] + srs, rest.value, depth);
    }
  }

  /** A top row of a root that has no row of its own: an entry of the root's children array. */
  ghost predicate RootEntry(a: Arena, root: NodeId, row: Row)
    requires root in a
  {
    && row.depth == 1 && !Named(a[root].caption) && Opens(a, root)
    && row.prefix == RootChildPrefix && EntryOf(a[root].children.kids, 0, row)
  }

  /** Every row below depth 0 has its parent row or is a top row of a nameless root. */
  ghost predicate WalkShape(a: Arena, root: NodeId, rows: seq<Row>)
    requires root in a
  {
    forall j :: 0 <= j < |rows| && rows[j].depth > 0 ==> HasParentRow(a, rows, j) || RootEntry(a, root, rows[j])
  }

  /** The root's row is the parent row of the top rows that follow it. */
  lemma RootRowLinked(a: Arena, head: Row, rs: seq<Row>)
    requires Opens(a, head.node) && head.depth == 0 && head.prefix == " " && head.last
    requires Linked(a, a[head.node].children.kids, 0, RootChildPrefix, rs, 0)
    requires forall q :: 0 <= q < |rs| ==> rs[q].depth > 0
    ensures forall j :: 1 <= j < |[head] + rs| ==> HasParentRow(a, [head] + rs, j)
  {
    var rows := [head] + rs;
    assert head.prefix + [Sep(head.last)] == RootChildPrefix;
    forall j | 1 <= j < |rows|
      ensures HasParentRow(a, rows, j)
    {
      ConsParent(a, head, RootChildPrefix, rs, j - 1);
    }
  }

  /** A row that opens is the parent row of the top rows below it, and the deeper rows keep theirs. */
  lemma ConsParent(a: Arena, head: Row, pre: string, rs: seq<Row>, j: nat)
    requires Opens(a, head.node) && head.prefix + [Sep(head.last)] == pre
    requires Linked(a, a[head.node].children.kids, 0, pre, rs, head.depth)
    requires forall q :: 0 <= q < |rs| ==> rs[q].depth > head.depth
    requires j < |rs|
    ensures HasParentRow(a, [head] + rs, j + 1)
  {
    assert LinkedAt(a, a[head.node].children.kids, 0, pre, rs, head.depth, j);
    if rs[j].depth == head.depth + 1 {
      HeadIsParent(a, head, rs, j);
    } else {
      LinkedDeep(a, a[head.node].children.kids, 0, pre, rs, head.depth, j);
      ParentAfterHead(a, head, rs, j);
    }
  }

  /** In linked rows, a row that is not a top row has its parent row. */
  lemma LinkedDeep(a: Arena, kids: seq<NodeId>, i: nat, pre: string, rs: seq<Row>, base: nat, j: nat)
    requires Linked(a, kids, i, pre, rs, base)
    ensures j < |rs| && rs[j].depth != base + 1 ==> HasParentRow(a, rs, j)
  {
    if j < |rs| {
      assert LinkedAt(a, kids, i, pre, rs, base, j);
    }
  }

  lemma ParentAfterHead(a: Arena, head: Row, rs: seq<Row>, j: nat)
    requires j < |rs| && HasParentRow(a, rs, j)
    ensures HasParentRow(a, [head] + rs, j + 1)
  {
    var p :| 0 <= p < j && ParentRow(a, rs, p, j);
    ParentShift(a, [head], rs, p, j);
  }

  /**
    Every row of a walk but the root's has its parent row; only when the root has no
    name (and so no row) do its children's rows stand at the top, as entries of its
    children array.
  */
  lemma WalkLinked(style: Style, a: Arena, root: NodeId)
    requires root in a && Walk(style, a, root).Ok?
    ensures WalkShape(a, root, Walk(style, a, root).value)
  {
    if Opens(a, root) {
      var kids := a[root].children.kids;
      var d := DumpChildren(style, a, kids, 0, RootChildPrefix, 0);
      assert d.Ok?;
      DumpLinked(style, a, kids, 0, RootChildPrefix, 0);
      if Named(a[root].caption) {
        NamedRootShape(style, a, root, d.value);
      } else {
        NamelessRootShape(style, a, root, d.value);
      }
    }
  }

  lemma NamedRootShape(style: Style, a: Arena, root: NodeId, rs: seq<Row>)
    requires root in a && Opens(a, root) && Named(a[root].caption)
    requires DumpChildren(style, a, a[root].children.kids, 0, RootChildPrefix, 0) == Ok(rs)
    requires Linked(a, a[root].children.kids, 0, RootChildPrefix, rs, 0)
    ensures Walk(style, a, root).Ok? && WalkShape(a, root, Walk(style, a, root).value)
  {
    var head := RootRow(style, a, root);
    assert Walk(style, a, root) == Ok([head] + rs);
    var rows := [head] + rs;
    forall q | 0 <= q < |rs|
      ensures rs[q].depth > 0
    {
      assert rows[q + 1] == rs[q];
    }
    RootRowLinked(a, head, rs);
  }

  lemma NamelessRootShape(style: Style, a: Arena, root: NodeId, rs: seq<Row>)
    requires root in a && Opens(a, root) && !Named(a[root].caption)
    requires DumpChildren(style, a, a[root].children.kids, 0, RootChildPrefix, 0) == Ok(rs)
    requires Linked(a, a[root].children.kids, 0, RootChildPrefix, rs, 0)
    ensures Walk(style, a, root).Ok? && WalkShape(a, root, Walk(style, a, root).value)
  {
    assert [] + rs == rs;
    assert Walk(style, a, root) == Ok(rs);
    forall j | 0 <= j < |rs| && rs[j].depth > 0
      ensures HasParentRow(a, rs, j) || RootEntry(a, root, rs[j])
    {
      NamelessRootRow(a, root, rs, j);
    }
  }

  lemma NamelessRootRow(a: Arena, root: NodeId, rs: seq<Row>, j: nat)
    requires root in a && Opens(a, root) && !Named(a[root].caption)
    requires Linked(a, a[root].children.kids, 0, RootChildPrefix, rs, 0)
    requires j < |rs|
    ensures HasParentRow(a, rs, j) || RootEntry(a, root, rs[j])
  {
    if rs[j].depth != 1 {
      LinkedDeep(a, a[root].children.kids, 0, RootChildPrefix, rs, 0, j);
    } else {
      assert LinkedAt(a, a[root].children.kids, 0, RootChildPrefix, rs, 0, j);
    }
  }

  /**
    A node the walk does not open (collapsed, or its children still a loader)
    contributes no child rows: the row after it is no deeper.
  */
  lemma ClosedNodeHasNoChildRows(style: Style, a: Arena, root: NodeId, j: nat)
    requires root in a && Walk(style, a, root).Ok?
    requires j + 1 < |Walk(style, a, root).value|
    requires !Opens(a, Walk(style, a, root).value[j].node)
    ensures Walk(style, a, root).value[j + 1].depth <= Walk(style, a, root).value[j].depth
  {
    var rows := Walk(style, a, root).value;
    WalkLinked(style, a, root);
    DeeperNextIsChild(a, root, rows, j);
  }

  /** A row followed by a deeper one is that row's parent row. */
  lemma DeeperNextIsChild(a: Arena, root: NodeId, rows: seq<Row>, j: nat)
    requires root in a && WalkShape(a, root, rows) && j + 1 < |rows|
    requires forall q :: 0 <= q < |rows| ==> (rows[q].depth == 0 <==> q == 0 && Named(a[root].caption))
    ensures rows[j + 1].depth > rows[j].depth ==> ParentRow(a, rows, j, j + 1)
  {
    if rows[j + 1].depth > rows[j].depth {
      assert rows[j + 1].depth > 0;
      assert !RootEntry(a, root, rows[j + 1]) by {
        assert rows[j].depth == 0 ==> Named(a[root].caption);
      }
      var p :| 0 <= p < j + 1 && ParentRow(a, rows, p, j + 1);
      assert rows[j].depth < rows[j + 1].depth;
      assert p == j;
    }
  }

  // ---------------------------------------------------------------------------
  // Sibling order
  // ---------------------------------------------------------------------------

  /** The entries of a children array that are not null, in array order. */
  function Present(a: Arena, kids: seq<NodeId>): seq<NodeId>
  {
    if |kids| == 0 then [] else (if kids[0] in a then [kids[0]] else []) + Present(a, kids[1..])
  }

  /** The nodes of the rows at depth `d`, in list order. */
  function TopNodes(rs: seq<Row>, d: nat): seq<NodeId>
  {
    if |rs| == 0 then [] else (if rs[0].depth == d then [rs[0].node] else []) + TopNodes(rs[1..], d)
  }

  lemma {:induction false} TopNodesAppend(xs: seq<Row>, ys: seq<Row>, d: nat)
    ensures TopNodes(xs + ys, d) == TopNodes(xs, d) + TopNodes(ys, d)
  {
    if |xs| == 0 {
      assert xs + ys == ys;
    } else {
      var zs := xs + ys;
      assert zs[0] == xs[0] && zs[1..] == xs[1..] + ys;
      TopNodesAppend(xs[1..], ys, d);
      var h := if xs[0].depth == d then [xs[0].node] else [];
      assert TopNodes(zs, d) == h + TopNodes(xs[1..] + ys, d);
      assert TopNodes(xs, d) == h + TopNodes(xs[1..], d);
    }
  }

  lemma {:induction false} TopNodesDeeper(rs: seq<Row>, d: nat)
    requires forall j :: 0 <= j < |rs| ==> rs[j].depth > d
    ensures TopNodes(rs, d) == []
  {
    if |rs| > 0 {
      assert rs[0].depth > d;
      TopNodesDeeper(rs[1..], d);
    }
  }

  /**
    The top rows below a node show the entries of its children array from `i` on that
    are not null, each exactly once and in array order.
  */
  lemma {:induction false} DumpListsChildrenInOrder(style: Style, a: Arena, kids: seq<NodeId>, depth: nat, pre: string, i: nat)
    requires depth < MaxDepth && i <= |kids| && |pre| == depth + 2
    requires DumpChildren(style, a, kids, depth, pre, i).Ok?
    ensures TopNodes(DumpChildren(style, a, kids, depth, pre, i).value, depth + 1) == Present(a, kids[i..])
    decreases |kids| - i
  {
    if i == |kids| {
      assert kids[i..] == [];
    } else {
      PresentFrom(a, kids, i);
      DumpListsChildrenInOrder(style, a, kids, depth, pre, i + 1);
      if kids[i] !in a {
        assert DumpChildren(style, a, kids, depth, pre, i) == DumpChildren(style, a, kids, depth, pre, i + 1);
      } else {
        var row, srs, rest := DumpUnfold(style, a, kids, depth, pre, i);
        if Opens(a, kids[i]) {
          assert Shaped(srs, depth + 1);
        }
        TopNodesDeeper(srs, depth + 1);
        TopOfCons(row, srs, rest.value, depth + 1);
      }
    }
  }

  lemma PresentFrom(a: Arena, kids: seq<NodeId>, i: nat)
    requires i < |kids|
    ensures Present(a, kids[i..]) == (if kids[i] in a then [kids[i]] else []) + Present(a, kids[i + 1..])
  {
    assert kids[i..][0] == kids[i] && kids[i..][1..] == kids[i + 1..];
  }

  lemma TopOfCons(row: Row, srs: seq<Row>, rest: seq<Row>, d: nat)
    requires row.depth == d && TopNodes(srs, d) == []
    ensures TopNodes([row] + srs + rest, d) == [row.node] + TopNodes(rest, d)
  {
    TopNodesAppend([row] + srs, rest, d);
    TopNodesAppend([row], srs, d);
    TopOfSingle(row, d);
    assert TopNodes([row] + srs, d) == [row.node] + [];
  }

  lemma TopOfSingle(row: Row, d: nat)
    requires row.depth == d
    ensures TopNodes([row], d) == [row.node]
  {
    assert [row][1..] == [];
    assert TopNodes([row][1..], d) == [];
  }

  /** The rows at depth 1 of a walk show the root's non-null children, once each, in order. */
  lemma WalkListsRootChildren(style: Style, a: Arena, root: NodeId)
    requires root in a && Opens(a, root) && Walk(style, a, root).Ok?
    ensures TopNodes(Walk(style, a, root).value, 1) == Present(a, a[root].children.kids)
  {
    var kids := a[root].children.kids;
    var head := if Named(a[root].caption) then [RootRow(style, a, root)] else [];
    var rs := DumpChildren(style, a, kids, 0, RootChildPrefix, 0).value;
    assert Walk(style, a, root).value == head + rs;
    DumpListsChildrenInOrder(style, a, kids, 0, RootChildPrefix, 0);
    assert kids[0..] == kids;
    assert TopNodes(head, 1) == [] by {
      if Named(a[root].caption) {
        assert head[1..] == [];
      }
    }
    TopNodesAppend(head, rs, 1);
  }
}
