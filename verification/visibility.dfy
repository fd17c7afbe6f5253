/**
  Which nodes the walk shows, stated without the walk: a node is visible at depth `d`
  when a chain of `d` steps leads to it from the root, each step going from a node
  that is expanded with an array of children to a present entry of that array. The
  walk emits exactly the visible nodes, each at its depth; from this follow the
  cursor guarantees of expand, load completion and collapse.
*/
module Visibility {
  import opened Base
  import opened TreeItems
  import opened WidgetTree

  /** `x` lies `k` opened steps below `p`. */
  ghost predicate Below(a: Arena, p: NodeId, x: NodeId, k: nat)
    decreases k
  {
    if k == 0 then p == x && p in a
    else Opens(a, p) && exists c :: c in a[p].children.kids && Below(a, c, x, k - 1)
  }

  /** `x` is shown at depth `d` under `root`; the root itself only when it has a name. */
  ghost predicate Visible(a: Arena, root: NodeId, x: NodeId, d: nat)
    requires root in a
  {
    Below(a, root, x, d) && (d > 0 || Named(a[root].caption))
  }

  lemma BelowStart(a: Arena, p: NodeId, x: NodeId, k: nat)
    requires Below(a, p, x, k)
    ensures p in a
  {
  }

  // ---------------------------------------------------------------------------
  // The walk emits only visible nodes ...
  // ---------------------------------------------------------------------------

  /** `x` lies `k` opened steps below some present entry of `kids[i..]`. */
  ghost predicate FromKids(a: Arena, kids: seq<NodeId>, i: nat, x: NodeId, k: nat)
  {
    exists m :: i <= m < |kids| && Below(a, kids[m], x, k)
  }

  /** Every row of `rs` lies below an entry of `kids[i..]` of a node at depth `depth`. */
  ghost predicate AllFromKids(a: Arena, kids: seq<NodeId>, i: nat, rs: seq<Row>, depth: nat)
  {
    forall j :: 0 <= j < |rs| ==> rs[j].depth > depth && FromKids(a, kids, i, rs[j].node, rs[j].depth - depth - 1)
  }

  lemma AllFromKidsAppend(a: Arena, kids: seq<NodeId>, i: nat, xs: seq<Row>, ys: seq<Row>, depth: nat)
    requires AllFromKids(a, kids, i, xs, depth) && AllFromKids(a, kids, i, ys, depth)
    ensures AllFromKids(a, kids, i, xs + ys, depth)
  {
    forall j | 0 <= j < |xs + ys|
      ensures (xs + ys)[j].depth > depth
        && FromKids(a, kids, i, (xs + ys)[j].node, (xs + ys)[j].depth - depth - 1)
    {
      if j >= |xs| {
        assert (xs + ys)[j] == ys[j - |xs|];
      }
    }
  }

  lemma AllFromKidsWiden(a: Arena, kids: seq<NodeId>, i: nat, rs: seq<Row>, depth: nat)
    requires i < |kids| && AllFromKids(a, kids, i + 1, rs, depth)
    ensures AllFromKids(a, kids, i, rs, depth)
  {
    forall j | 0 <= j < |rs|
      ensures FromKids(a, kids, i, rs[j].node, rs[j].depth - depth - 1)
    {
      var m :| i + 1 <= m < |kids| && Below(a, kids[m], rs[j].node, rs[j].depth - depth - 1);
    }
  }

  /** Rows below the children of the opened entry `kids[i]` lie one step further below it. */
  lemma AllFromKidsLift(a: Arena, kids: seq<NodeId>, i: nat, srs: seq<Row>, depth: nat)
    requires i < |kids| && Opens(a, kids[i])
    requires AllFromKids(a, a[kids[i]].children.kids, 0, srs, depth + 1)
    ensures AllFromKids(a, kids, i, srs, depth)
  {
    var ck := a[kids[i]].children.kids;
    forall j | 0 <= j < |srs|
      ensures FromKids(a, kids, i, srs[j].node, srs[j].depth - depth - 1)
    {
      var k := srs[j].depth - depth - 1;
      var m' :| 0 <= m' < |ck| && Below(a, ck[m'], srs[j].node, k - 1);
      assert ck[m'] in a[kids[i]].children.kids;
      assert Below(a, kids[i], srs[j].node, k);
    }
  }

  lemma {:induction false} DumpSound(style: Style, a: Arena, kids: seq<NodeId>, depth: nat, pre: string, i: nat)
    requires depth < MaxDepth && i <= |kids| && |pre| == depth + 2
    requires DumpChildren(style, a, kids, depth, pre, i).Ok?
    ensures AllFromKids(a, kids, i, DumpChildren(style, a, kids, depth, pre, i).value, depth)
    decreases MaxDepth - depth, |kids| - i
  {
    var rs := DumpChildren(style, a, kids, depth, pre, i).value;
    if i == |kids| {
    } else if kids[i] !in a {
      DumpSound(style, a, kids, depth, pre, i + 1);
      AllFromKidsWiden(a, kids, i, rs, depth);
    } else {
      var last := i == |kids| - 1;
      var row, srs, rest := DumpUnfold(style, a, kids, depth, pre, i);
      if Opens(a, kids[i]) {
        DumpSound(style, a, a[kids[i]].children.kids, depth + 1, pre + [Sep(last)], 0);
      }
      DumpSound(style, a, kids, depth, pre, i + 1);
      SoundCons(a, kids, i, depth, row, srs, rest.value);
    }
  }

  /** A present entry's row, its own rows and the rest all lie below entries from `i` on. */
  lemma SoundCons(a: Arena, kids: seq<NodeId>, i: nat, depth: nat, row: Row, srs: seq<Row>, rest: seq<Row>)
    requires i < |kids| && kids[i] in a && row.node == kids[i] && row.depth == depth + 1
    requires Opens(a, kids[i]) ==> AllFromKids(a, a[kids[i]].children.kids, 0, srs, depth + 1)
    requires !Opens(a, kids[i]) ==> srs == []
    requires AllFromKids(a, kids, i + 1, rest, depth)
    ensures AllFromKids(a, kids, i, [row] + srs + rest, depth)
  {
    assert Below(a, kids[i], row.node, 0);
    assert AllFromKids(a, kids, i, [row], depth);
    if Opens(a, kids[i]) {
      AllFromKidsLift(a, kids, i, srs, depth);
    }
    AllFromKidsWiden(a, kids, i, rest, depth);
    AllFromKidsAppend(a, kids, i, [row], srs, depth);
    AllFromKidsAppend(a, kids, i, [row] + srs, rest, depth);
  }

  /** Every row of a successful walk shows a visible node at the depth it is visible at. */
  lemma WalkSound(style: Style, a: Arena, root: NodeId)
    requires root in a && Walk(style, a, root).Ok?
    ensures var rows := Walk(style, a, root).value;
      forall j :: 0 <= j < |rows| ==> Visible(a, root, rows[j].node, rows[j].depth)
  {
    var rows := Walk(style, a, root).value;
    var head := if Named(a[root].caption) then [RootRow(style, a, root)] else [];
    if Opens(a, root) {
      var kids := a[root].children.kids;
      var rs := DumpChildren(style, a, kids, 0, RootChildPrefix, 0).value;
      assert rows == head + rs;
      DumpSound(style, a, kids, 0, RootChildPrefix, 0);
      forall j | 0 <= j < |rows|
        ensures Visible(a, root, rows[j].node, rows[j].depth)
      {
        if j >= |head| {
          assert rows[j] == rs[j - |head|];
          ChildRowVisible(a, root, rs, j - |head|);
        }
      }
    }
  }

  /** A row below one of the root's entries is visible at its depth. */
  lemma ChildRowVisible(a: Arena, root: NodeId, rs: seq<Row>, j: nat)
    requires root in a && Opens(a, root) && j < |rs|
    requires AllFromKids(a, a[root].children.kids, 0, rs, 0)
    ensures Visible(a, root, rs[j].node, rs[j].depth)
  {
    var kids := a[root].children.kids;
    assert FromKids(a, kids, 0, rs[j].node, rs[j].depth - 1);
    var m :| 0 <= m < |kids| && Below(a, kids[m], rs[j].node, rs[j].depth - 1);
    assert kids[m] in a[root].children.kids;
    assert Below(a, root, rs[j].node, rs[j].depth);
  }

  // ---------------------------------------------------------------------------
  // ... and every visible node.
  // ---------------------------------------------------------------------------

  /** Some row shows `x` at depth `d`. */
  ghost predicate ShowsAt(rs: seq<Row>, x: NodeId, d: nat)
  {
    exists j :: 0 <= j < |rs| && rs[j].node == x && rs[j].depth == d
  }

  lemma ShowsAtAppend(xs: seq<Row>, ys: seq<Row>, x: NodeId, d: nat)
    requires ShowsAt(xs, x, d) || ShowsAt(ys, x, d)
    ensures ShowsAt(xs + ys, x, d)
  {
    if ShowsAt(xs, x, d) {
      var j :| 0 <= j < |xs| && xs[j].node == x && xs[j].depth == d;
      assert (xs + ys)[j] == xs[j];
    } else {
      var j :| 0 <= j < |ys| && ys[j].node == x && ys[j].depth == d;
      assert (xs + ys)[|xs| + j] == ys[j];
    }
  }

  lemma {:induction false} DumpComplete(
    style: Style, a: Arena, kids: seq<NodeId>, depth: nat, pre: string, i: nat, m: nat, x: NodeId, k: nat)
    requires depth < MaxDepth && i <= |kids| && |pre| == depth + 2
    requires DumpChildren(style, a, kids, depth, pre, i).Ok?
    requires i <= m < |kids| && Below(a, kids[m], x, k)
    ensures ShowsAt(DumpChildren(style, a, kids, depth, pre, i).value, x, depth + 1 + k)
    decreases MaxDepth - depth, |kids| - i
  {
    var rs := DumpChildren(style, a, kids, depth, pre, i).value;
    BelowStart(a, kids[m], x, k);
    if kids[i] !in a {
      DumpComplete(style, a, kids, depth, pre, i + 1, m, x, k);
    } else {
      var c := a[kids[i]];
      var last := i == |kids| - 1;
      var row, srs, rest := DumpUnfold(style, a, kids, depth, pre, i);
      if m == i && k == 0 {
        assert rs[0].node == x;
      } else if m == i {
        var c' :| c' in c.children.kids && Below(a, c', x, k - 1);
        var m' :| 0 <= m' < |c.children.kids| && c.children.kids[m'] == c';
        DumpComplete(style, a, c.children.kids, depth + 1, pre + [Sep(last)], 0, m', x, k - 1);
        ShowsAtAppend([row], srs, x, depth + 1 + k);
        ShowsAtAppend([row] + srs, rest.value, x, depth + 1 + k);
      } else {
        DumpComplete(style, a, kids, depth, pre, i + 1, m, x, k);
        ShowsAtAppend([row] + srs, rest.value, x, depth + 1 + k);
      }
    }
  }

  /** Every visible node is shown by a successful walk, at the depth it is visible at. */
  lemma WalkComplete(style: Style, a: Arena, root: NodeId, x: NodeId, d: nat)
    requires root in a && Walk(style, a, root).Ok? && Visible(a, root, x, d)
    ensures var rows := Walk(style, a, root).value;
      exists j :: 0 <= j < |rows| && rows[j].node == x && rows[j].depth == d
  {
    var rows := Walk(style, a, root).value;
    if d == 0 {
      assert rows[0].node == x;
    } else {
      var kids := a[root].children.kids;
      var head := if Named(a[root].caption) then [RootRow(style, a, root)] else [];
      var rs := DumpChildren(style, a, kids, 0, RootChildPrefix, 0).value;
      assert rows == head + rs;
      var c :| c in kids && Below(a, c, x, d - 1);
      var m :| 0 <= m < |kids| && kids[m] == c;
      DumpComplete(style, a, kids, 0, RootChildPrefix, 0, m, x, d - 1);
      ShowsAtAppend(head, rs, x, d);
    }
  }

  /** The rows of a successful walk show exactly the visible nodes. */
  lemma WalkShowsExactlyVisible(style: Style, a: Arena, root: NodeId, x: NodeId)
    requires root in a && Walk(style, a, root).Ok?
    ensures var rows := Walk(style, a, root).value;
      (exists j :: 0 <= j < |rows| && rows[j].node == x) <==> (exists d: nat :: Visible(a, root, x, d))
  {
    var rows := Walk(style, a, root).value;
    WalkSound(style, a, root);
    if d: nat :| Visible(a, root, x, d) {
      WalkComplete(style, a, root, x, d);
    }
  }

  // ---------------------------------------------------------------------------
  // The depth assertion fails exactly on trees opened too deep.
  // ---------------------------------------------------------------------------

  /** Some node lies at least `MaxDepth` levels below the root through opened nodes. */
  ghost predicate TooDeep(a: Arena, root: NodeId)
    requires root in a
  {
    exists x: NodeId, d: nat :: d >= MaxDepth && Visible(a, root, x, d)
  }

  /** Some node lies below an entry of `kids[i..]` at a depth that reaches `MaxDepth`. */
  ghost predicate DeepFromKids(a: Arena, kids: seq<NodeId>, i: nat, depth: nat)
  {
    exists m: nat, x: NodeId, k: nat :: i <= m < |kids| && depth + 1 + k >= MaxDepth && Below(a, kids[m], x, k)
  }

  lemma {:induction false} DumpFails(style: Style, a: Arena, kids: seq<NodeId>, depth: nat, pre: string, i: nat)
    requires depth < MaxDepth && i <= |kids| && |pre| == depth + 2
    requires DumpChildren(style, a, kids, depth, pre, i).Err?
    ensures DeepFromKids(a, kids, i, depth)
    decreases MaxDepth - depth, |kids| - i
  {
    if kids[i] !in a {
      DumpFails(style, a, kids, depth, pre, i + 1);
      var m: nat, x: NodeId, k: nat :| i + 1 <= m < |kids| && depth + 1 + k >= MaxDepth && Below(a, kids[m], x, k);
      assert i <= m;
    } else if depth + 1 >= MaxDepth {
      assert Below(a, kids[i], kids[i], 0);
    } else {
      var c := a[kids[i]];
      var last := i == |kids| - 1;
      var sub :=
        if Opens(a, kids[i]) then DumpChildren(style, a, c.children.kids, depth + 1, pre + [Sep(last)], 0)
        else Ok([]);
      if sub.Err? {
        DumpFails(style, a, c.children.kids, depth + 1, pre + [Sep(last)], 0);
        var m: nat, x: NodeId, k: nat :|
          0 <= m < |c.children.kids| && depth + 2 + k >= MaxDepth && Below(a, c.children.kids[m], x, k);
        assert c.children.kids[m] in a[kids[i]].children.kids;
        assert Below(a, kids[i], x, k + 1);
      } else {
        DumpFails(style, a, kids, depth, pre, i + 1);
        var m: nat, x: NodeId, k: nat :| i + 1 <= m < |kids| && depth + 1 + k >= MaxDepth && Below(a, kids[m], x, k);
        assert i <= m;
      }
    }
  }

  /**
    The walk fails its depth assertion exactly when some node is visible at depth
    `MaxDepth` or more; it never fails on any shallower tree.
  */
  lemma WalkFailsIffTooDeep(style: Style, a: Arena, root: NodeId)
    requires root in a
    ensures Walk(style, a, root).Err? <==> TooDeep(a, root)
  {
    if Walk(style, a, root).Err? {
      var kids := a[root].children.kids;
      DumpFails(style, a, kids, 0, RootChildPrefix, 0);
      var m: nat, x: NodeId, k: nat :| 0 <= m < |kids| && 1 + k >= MaxDepth && Below(a, kids[m], x, k);
      assert kids[m] in a[root].children.kids;
      assert Visible(a, root, x, k + 1);
    } else {
      forall x: NodeId, d: nat | Visible(a, root, x, d)
        ensures d < MaxDepth
      {
        WalkComplete(style, a, root, x, d);
      }
    }
  }

  // ---------------------------------------------------------------------------
  // Opening more nodes hides nothing.
  // ---------------------------------------------------------------------------

  /** `a'` keeps every node and name of `a` and every opened node with its children. */
  ghost predicate Grows(a: Arena, a': Arena)
  {
    && (forall q :: q in a ==> q in a' && a'[q].caption == a[q].caption)
    && (forall q :: Opens(a, q) ==> Opens(a', q) && a'[q].children == a[q].children)
  }

  lemma {:induction false} BelowGrows(a: Arena, a': Arena, p: NodeId, x: NodeId, k: nat)
    requires Grows(a, a') && Below(a, p, x, k)
    ensures Below(a', p, x, k)
    decreases k
  {
    if k > 0 {
      var c :| c in a[p].children.kids && Below(a, c, x, k - 1);
      BelowGrows(a, a', c, x, k - 1);
      assert c in a'[p].children.kids;
    }
  }

  /** After a walk of a grown arena, the cursor is still on the node it was on. */
  lemma GrowKeepsCursor(t: Tree, a': Arena, next': nat)
    requires Valid(t) && |t.rows| > 0 && Grows(t.arena, a') && FreshAbove(a', next')
    requires SetData(t, a', next', t.root).Redrawn?
    ensures var t' := SetData(t, a', next', t.root).tree;
      |t'.rows| > 0 && t'.rows[t'.selected].node == t.rows[t.selected].node
  {
    var n := t.rows[t.selected].node;
    var d := t.rows[t.selected].depth;
    WalkSound(t.style, t.arena, t.root);
    assert Visible(t.arena, t.root, n, d);
    BelowGrows(t.arena, a', t.root, n, d);
    var t' := SetData(t, a', next', t.root).tree;
    WalkComplete(t.style, a', t.root, n, d);
    assert Shows(t'.rows, Some(n));
  }

  /** Expanding the selected node from its cached array leaves the cursor on it. */
  lemma ExpandKeepsCursor(t: Tree)
    requires Valid(t) && ExpandSelected(t).Redrawn?
    ensures var t' := ExpandSelected(t).tree;
      |t'.rows| > 0 && t'.rows[t'.selected].node == t.rows[t.selected].node
  {
    var n := t.rows[t.selected].node;
    var a' := t.arena[n := t.arena[n].(expanded := true)];
    assert !t.arena[n].expanded;
    forall q | q in t.arena
      ensures q in a' && a'[q].caption == t.arena[q].caption
    {
    }
    forall q | Opens(t.arena, q)
      ensures Opens(a', q) && a'[q].children == t.arena[q].children
    {
      assert q != n;
    }
    assert ExpandSelected(t) == SetData(t, a', t.next, t.root);
    GrowKeepsCursor(t, a', t.next);
  }

  /**
    When the loader delivers for a node that is not open at that moment, the cursor
    stays on whatever node it was on.
  */
  lemma LoadKeepsCursor(t: Tree, n: NodeId, items: seq<Label>)
    requires Valid(t) && n in t.arena && !Opens(t.arena, n) && |t.rows| > 0
    requires CompleteLoad(t, n, Delivered(items)).Redrawn?
    ensures var t' := CompleteLoad(t, n, Delivered(items)).tree;
      |t'.rows| > 0 && t'.rows[t'.selected].node == t.rows[t.selected].node
  {
    var a' := CompleteLoad(t, n, Delivered(items)).tree.arena;
    var next' := t.next + |items|;
    LoadGrows(t, n, items);
    assert CompleteLoad(t, n, Delivered(items)) == SetData(t, a', next', t.root);
    GrowKeepsCursor(t, a', next');
  }

  lemma LoadGrows(t: Tree, n: NodeId, items: seq<Label>)
    requires Valid(t) && n in t.arena && !Opens(t.arena, n)
    requires CompleteLoad(t, n, Delivered(items)).Redrawn?
    ensures Grows(t.arena, CompleteLoad(t, n, Delivered(items)).tree.arena)
  {
    var a' := CompleteLoad(t, n, Delivered(items)).tree.arena;
    forall q | q in t.arena
      ensures q in a' && a'[q].caption == t.arena[q].caption
    {
    }
    forall q | Opens(t.arena, q)
      ensures Opens(a', q) && a'[q].children == t.arena[q].children
    {
      assert q != n;
    }
  }

  // ---------------------------------------------------------------------------
  // Collapsing the selected node keeps the cursor on it.
  // ---------------------------------------------------------------------------

  /** A chain of opened steps from `p` to `x` none of whose inner nodes is `n`. */
  ghost predicate BelowAvoiding(a: Arena, p: NodeId, x: NodeId, k: nat, n: NodeId)
    decreases k
  {
    if k == 0 then p == x && p in a
    else p != n && Opens(a, p) && exists c :: c in a[p].children.kids && BelowAvoiding(a, c, x, k - 1, n)
  }

  /** Cutting a chain at the first time it meets `x` gives a chain that meets `x` only at its end. */
  lemma {:induction false} ShortestChain(a: Arena, p: NodeId, x: NodeId, k: nat)
    requires Below(a, p, x, k)
    ensures exists k': nat :: k' <= k && BelowAvoiding(a, p, x, k', x)
    decreases k
  {
    if k == 0 {
      assert BelowAvoiding(a, p, x, 0, x);
    } else if p == x {
      assert BelowAvoiding(a, p, x, 0, x);
    } else {
      var c :| c in a[p].children.kids && Below(a, c, x, k - 1);
      ShortestChain(a, c, x, k - 1);
      var k': nat :| k' <= k - 1 && BelowAvoiding(a, c, x, k', x);
      assert BelowAvoiding(a, p, x, k' + 1, x);
    }
  }

  lemma {:induction false} AvoidingSurvivesCollapse(a: Arena, p: NodeId, x: NodeId, k: nat)
    requires x in a && BelowAvoiding(a, p, x, k, x)
    ensures Below(a[x := a[x].(expanded := false)], p, x, k)
    decreases k
  {
    if k > 0 {
      var a' := a[x := a[x].(expanded := false)];
      var c :| c in a[p].children.kids && BelowAvoiding(a, c, x, k - 1, x);
      AvoidingSurvivesCollapse(a, c, x, k - 1);
      assert p != x && Opens(a', p) && c in a'[p].children.kids;
    }
  }

  /**
    Collapsing the selected node leaves the cursor on it (a nameless root is never
    shown at depth 0, so it is set aside).
  */
  lemma CollapseKeepsCursor(t: Tree)
    requires Valid(t) && CollapseSelected(t).Redrawn?
    requires t.rows[t.selected].node != t.root || Named(t.arena[t.root].caption)
    ensures var t' := CollapseSelected(t).tree;
      |t'.rows| > 0 && t'.rows[t'.selected].node == t.rows[t.selected].node
  {
    var n := t.rows[t.selected].node;
    var a' := t.arena[n := t.arena[n].(expanded := false)];
    var t' := CollapseSelected(t).tree;
    WalkSound(t.style, t.arena, t.root);
    ShortestChain(t.arena, t.root, n, t.rows[t.selected].depth);
    var k': nat :| k' <= t.rows[t.selected].depth && BelowAvoiding(t.arena, t.root, n, k', n);
    AvoidingSurvivesCollapse(t.arena, t.root, n, k');
    assert Visible(a', t.root, n, k');
    WalkComplete(t.style, a', t.root, n, k');
    assert Shows(t'.rows, Some(n));
  }

  /** Collapsing the root leaves only the root's row, and the cursor on row 0. */
  lemma CollapseRootLeavesRootRow(t: Tree)
    requires Valid(t) && |t.rows| > 0 && t.rows[t.selected].node == t.root
    requires CollapseSelected(t).Redrawn?
    ensures var t' := CollapseSelected(t).tree;
      && t'.rows == (if Named(t.arena[t.root].caption) then [RootRow(t.style, t'.arena, t.root)] else [])
      && t'.selected == 0
  {
  }

  /**
    Once a load has delivered, collapsing and expanding again reuses the cached array:
    the loader is not called for that node a second time.
  */
  lemma NoSecondLoad(t: Tree, n: NodeId, items: seq<Label>)
    requires Valid(t) && n in t.arena
    requires CompleteLoad(t, n, Delivered(items)).Redrawn?
    ensures var t1 := CompleteLoad(t, n, Delivered(items)).tree;
      && t1.arena[n].children.Loaded?
      && ExpandSelected(t1) != Load(n)
      && (CollapseSelected(t1).Redrawn? ==> ExpandSelected(CollapseSelected(t1).tree) != Load(n))
  {
  }
}
