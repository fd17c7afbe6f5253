/**
  The lazy tree widget: a partially loaded tree flattened depth-first into an
  index-addressed list of rows, a cursor that stays on the same node object across
  re-walks, and expand/collapse steps that call a child loader only while the
  children are still a function.

  Node objects live in an arena keyed by identity, so `===` on nodes is equality of
  `NodeId`s. An id in a children array that the arena does not hold stands for a
  null entry of that array. The current widget and the legacy one share the engine
  and differ only in their expand-state glyphs (`Style`).
*/
module WidgetTree {
  import opened Base
  import opened Text
  import opened TreeItems

  /** Object identity of a node. */
  type NodeId = nat

  /** `node.children`: still the loader function, or the array the loader delivered. */
  datatype Children = Unloaded | Loaded(kids: seq<NodeId>)

  datatype Node = Node(caption: Label, expanded: bool, children: Children)

  type Arena = map<NodeId, Node>

  /** Which copy of the widget draws the rows. */
  datatype Style = CurrentGlyphs | LegacyGlyphs

  /** Depths must stay below this bound, or rendering fails its assertion. */
  const MaxDepth: nat := 100

  /** One list row: the node it shows and the structural fields computed for it. */
  datatype Row = Row(node: NodeId, depth: nat, prefix: string, last: bool, content: Text)

  datatype Fault =
    | DepthAssertion   // the depth assertion in the row renderer failed
    | NoSelectedItem   // the list is empty, so there is no selected item to read

  // ---------------------------------------------------------------------------
  // Row renderer
  // ---------------------------------------------------------------------------

  function Branch(last: bool): char
  {
    if last then '└' else '├'
  }

  /** What a node adds to its children's prefix. */
  function Sep(last: bool): char
  {
    if last then ' ' else '│'
  }

  /**
    `node.children && node.children.length > 0`. A loader function is truthy and its
    `length` is its parameter count, which is two for both loaders of the program.
  */
  predicate HasChildren(n: Node)
  {
    match n.children
    case Unloaded => true
    case Loaded(kids) => |kids| > 0
  }

  function StateGlyph(style: Style, n: Node): Span
  {
    match style
    case CurrentGlyphs =>
      if n.expanded then (if HasChildren(n) then Styled(Green, "▼") else Plain("─")) else Plain("►")
    case LegacyGlyphs =>
      if n.expanded then (if HasChildren(n) then Styled(Green, "▼ ") else Styled(Blue, "▼ ")) else Plain("► ")
  }

  /** The expand-state glyph tells apart all three states it encodes. */
  lemma GlyphShowsState(style: Style, n: Node, m: Node)
    requires StateGlyph(style, n) == StateGlyph(style, m)
    ensures n.expanded == m.expanded
    ensures n.expanded ==> HasChildren(n) == HasChildren(m)
  {
  }

  /** The text of a row: prefix, branch glyph, expand-state glyph, then the node's name. */
  function Render(style: Style, n: Node, prefix: string, last: bool): (r: Text)
    ensures |r| >= 2
    ensures r[0] == Plain(prefix + [Branch(last)])
    ensures r[1] == StateGlyph(style, n)
    ensures r[2..] == LabelText(n.caption)
  {
    [Plain(prefix + [Branch(last)]), StateGlyph(style, n)] + LabelText(n.caption)
  }

  // ---------------------------------------------------------------------------
  // The walk
  // ---------------------------------------------------------------------------

  /** A node whose children the walk descends into. */
  predicate Opens(a: Arena, p: NodeId)
  {
    p in a && a[p].expanded && a[p].children.Loaded?
  }

  /**
    The rows emitted below a node at depth `base`: they start at depth `base + 1`,
    stay deeper than `base` and within the depth bound, never go more than one level
    deeper from one row to the next, and carry one prefix glyph per ancestor.
  */
  predicate Shaped(rs: seq<Row>, base: nat)
  {
    && (|rs| > 0 ==> rs[0].depth == base + 1)
    && (forall j :: 0 <= j < |rs| ==> base < rs[j].depth < MaxDepth && |rs[j].prefix| == rs[j].depth + 1)
    && (forall j :: 0 < j < |rs| ==> rs[j].depth <= rs[j - 1].depth + 1)
  }

  predicate InArena(rs: seq<Row>, a: Arena)
  {
    forall j :: 0 <= j < |rs| ==> rs[j].node in a
  }

  lemma ShapedCons(row: Row, srs: seq<Row>, base: nat)
    requires row.depth == base + 1 < MaxDepth && |row.prefix| == base + 2
    requires Shaped(srs, base + 1)
    ensures Shaped([row] + srs, base)
  {
    var rs := [row] + srs;
    forall j | 0 < j < |rs|
      ensures rs[j].depth <= rs[j - 1].depth + 1
    {
      if j > 1 {
        assert rs[j] == srs[j - 1] && rs[j - 1] == srs[j - 2];
      }
    }
  }

  lemma ShapedAppend(xs: seq<Row>, ys: seq<Row>, base: nat)
    requires Shaped(xs, base) && Shaped(ys, base)
    ensures Shaped(xs + ys, base)
  {
    var rs := xs + ys;
    forall j | 0 < j < |rs|
      ensures rs[j].depth <= rs[j - 1].depth + 1
    {
      if j > |xs| {
        assert rs[j] == ys[j - |xs|] && rs[j - 1] == ys[j - 1 - |xs|];
      }
    }
  }

  /** Every row's text is what the renderer makes of its node, prefix and last flag. */
  predicate Rendered(style: Style, a: Arena, rs: seq<Row>)
  {
    forall j :: 0 <= j < |rs| ==>
      rs[j].node in a && rs[j].content == Render(style, a[rs[j].node], rs[j].prefix, rs[j].last)
  }

  lemma RenderedAppend(style: Style, a: Arena, xs: seq<Row>, ys: seq<Row>)
    requires Rendered(style, a, xs) && Rendered(style, a, ys)
    ensures Rendered(style, a, xs + ys)
  {
    var rs := xs + ys;
    forall j | 0 <= j < |rs|
      ensures rs[j].node in a && rs[j].content == Render(style, a[rs[j].node], rs[j].prefix, rs[j].last)
    {
      if j < |xs| {
        assert rs[j] == xs[j];
      } else {
        assert rs[j] == ys[j - |xs|];
      }
    }
  }

  /**
    `dumpChildren`: the rows for `kids[i..]` of a node at depth `depth`, whose children
    take the prefix `pre`. Each present child is followed at once by its own subtree
    when it is expanded and its children are an array.
  */
  function DumpChildren(style: Style, a: Arena, kids: seq<NodeId>, depth: nat, pre: string, i: nat)
    : (r: Result<seq<Row>, Fault>)
    requires depth < MaxDepth && i <= |kids| && |pre| == depth + 2
    ensures r.Ok? ==> Shaped(r.value, depth) && InArena(r.value, a)
    ensures r.Err? ==> r.error == DepthAssertion
    decreases MaxDepth - depth, |kids| - i
  {
    if i == |kids| then Ok([])
    else if kids[i] !in a then DumpChildren(style, a, kids, depth, pre, i + 1)
    else if depth + 1 >= MaxDepth then Err(DepthAssertion)
    else
      var c := a[kids[i]];
      var last := i == |kids| - 1;
      var row := Row(kids[i], depth + 1, pre, last, Render(style, c, pre, last));
      var sub :=
        if Opens(a, kids[i]) then DumpChildren(style, a, c.children.kids, depth + 1, pre + [Sep(last)], 0)
        else Ok([]);
      match sub
      case Err(f) => Err(f)
      case Ok(srs) =>
        match DumpChildren(style, a, kids, depth, pre, i + 1)
        case Err(f) => Err(f)
        case Ok(rest) =>
          ShapedCons(row, srs, depth);
          ShapedAppend([row] + srs, rest, depth);
          Ok([row] + srs + rest)
  }

  /** The row of the root: depth 0, a last child, prefix " ". */
  function RootRow(style: Style, a: Arena, root: NodeId): Row
    requires root in a
  {
    Row(root, 0, " ", true, Render(style, a[root], " ", true))
  }

  /** The root's children take the root's prefix followed by the separator of a last child. */
  const RootChildPrefix: string := " " + [Sep(true)]

  /**
    `walk(data, 0)`: the root first when it has a name, then its children when it is
    expanded with an array of children.
  */
  function Walk(style: Style, a: Arena, root: NodeId): (r: Result<seq<Row>, Fault>)
    requires root in a
    ensures r.Ok? && Named(a[root].caption) ==> |r.value| > 0 && r.value[0] == RootRow(style, a, root)
    ensures !Opens(a, root) ==> r == Ok(if Named(a[root].caption) then [RootRow(style, a, root)] else [])
    ensures r.Err? ==> r.error == DepthAssertion
    ensures r.Ok? ==> InArena(r.value, a)
    ensures r.Ok? ==> forall j :: 0 <= j < |r.value| ==>
      r.value[j].depth < MaxDepth && |r.value[j].prefix| == r.value[j].depth + 1
    ensures r.Ok? ==> forall j :: 0 <= j < |r.value| ==>
      (r.value[j].depth == 0 <==> j == 0 && Named(a[root].caption))
  {
    var head := if Named(a[root].caption) then [RootRow(style, a, root)] else [];
    if Opens(a, root) then
      match DumpChildren(style, a, a[root].children.kids, 0, RootChildPrefix, 0)
      case Err(f) => Err(f)
      case Ok(rs) => Ok(head + rs)
    else Ok(head)
  }

  /** The arena with node `n` collapsed: its children array, if any, is kept. */
  function Close(a: Arena, n: NodeId): Arena
    requires n in a
  {
    a[n := a[n].(expanded := false)]
  }

  /** Collapsing a node never makes the rows below a node fail the depth assertion. */
  lemma {:induction false} DumpSurvivesClose(style: Style, a: Arena, n: NodeId, kids: seq<NodeId>, depth: nat, pre: string, i: nat)
    requires n in a && depth < MaxDepth && i <= |kids| && |pre| == depth + 2
    requires DumpChildren(style, a, kids, depth, pre, i).Ok?
    ensures DumpChildren(style, Close(a, n), kids, depth, pre, i).Ok?
    decreases MaxDepth - depth, |kids| - i
  {
    var b := Close(a, n);
    if i == |kids| {
    } else if kids[i] !in a {
      DumpSurvivesClose(style, a, n, kids, depth, pre, i + 1);
    } else {
      var last := i == |kids| - 1;
      if Opens(b, kids[i]) {
        assert Opens(a, kids[i]) && b[kids[i]].children == a[kids[i]].children;
        DumpSurvivesClose(style, a, n, a[kids[i]].children.kids, depth + 1, pre + [Sep(last)], 0);
      }
      DumpSurvivesClose(style, a, n, kids, depth, pre, i + 1);
    }
  }

  /** Collapsing a node never makes a walk that succeeded fail. */
  lemma WalkSurvivesClose(style: Style, a: Arena, root: NodeId, n: NodeId)
    requires root in a && n in a
    requires Walk(style, a, root).Ok?
    ensures Walk(style, Close(a, n), root).Ok?
  {
    if Opens(Close(a, n), root) {
      DumpSurvivesClose(style, a, n, a[root].children.kids, 0, RootChildPrefix, 0);
    }
  }

  /** A successful dump of a present entry: its row, then its own rows, then the rest. */
  lemma DumpUnfold(style: Style, a: Arena, kids: seq<NodeId>, depth: nat, pre: string, i: nat)
    returns (row: Row, srs: seq<Row>, rest: Result<seq<Row>, Fault>)
    requires depth < MaxDepth && i < |kids| && |pre| == depth + 2 && kids[i] in a
    requires DumpChildren(style, a, kids, depth, pre, i).Ok?
    ensures depth + 1 < MaxDepth
    ensures row == Row(kids[i], depth + 1, pre, i == |kids| - 1, Render(style, a[kids[i]], pre, i == |kids| - 1))
    ensures Opens(a, kids[i]) ==>
      DumpChildren(style, a, a[kids[i]].children.kids, depth + 1, pre + [Sep(i == |kids| - 1)], 0) == Ok(srs)
    ensures !Opens(a, kids[i]) ==> srs == []
    ensures rest == DumpChildren(style, a, kids, depth, pre, i + 1) && rest.Ok?
    ensures DumpChildren(style, a, kids, depth, pre, i).value == [row] + srs + rest.value
  {
    var c := a[kids[i]];
    var last := i == |kids| - 1;
    row := Row(kids[i], depth + 1, pre, last, Render(style, c, pre, last));
    var sub :=
      if Opens(a, kids[i]) then DumpChildren(style, a, c.children.kids, depth + 1, pre + [Sep(last)], 0)
      else Ok([]);
    rest := DumpChildren(style, a, kids, depth, pre, i + 1);
    assert sub.Ok? && rest.Ok?;
    srs := sub.value;
  }

  /**
    Every row below a node is drawn by the renderer: prefix, branch glyph, expand-state
    glyph, then the name of the node it shows.
  */
  lemma {:induction false} DumpRendered(style: Style, a: Arena, kids: seq<NodeId>, depth: nat, pre: string, i: nat)
    requires depth < MaxDepth && i <= |kids| && |pre| == depth + 2
    requires DumpChildren(style, a, kids, depth, pre, i).Ok?
    ensures Rendered(style, a, DumpChildren(style, a, kids, depth, pre, i).value)
    decreases MaxDepth - depth, |kids| - i
  {
    if i == |kids| {
    } else if kids[i] !in a {
      DumpRendered(style, a, kids, depth, pre, i + 1);
    } else {
      var c := a[kids[i]];
      var last := i == |kids| - 1;
      var row := Row(kids[i], depth + 1, pre, last, Render(style, c, pre, last));
      var srs: seq<Row> := [];
      if Opens(a, kids[i]) {
        srs := DumpChildren(style, a, c.children.kids, depth + 1, pre + [Sep(last)], 0).value;
        DumpRendered(style, a, c.children.kids, depth + 1, pre + [Sep(last)], 0);
      }
      var rest := DumpChildren(style, a, kids, depth, pre, i + 1).value;
      DumpRendered(style, a, kids, depth, pre, i + 1);
      assert DumpChildren(style, a, kids, depth, pre, i).value == [row] + srs + rest;
      RenderedAppend(style, a, [row], srs);
      RenderedAppend(style, a, [row] + srs, rest);
    }
  }

  /** Every row of a walk, the root's included, is drawn by the renderer. */
  lemma WalkRendered(style: Style, a: Arena, root: NodeId)
    requires root in a && Walk(style, a, root).Ok?
    ensures Rendered(style, a, Walk(style, a, root).value)
  {
    var head := if Named(a[root].caption) then [RootRow(style, a, root)] else [];
    if Opens(a, root) {
      var kids := a[root].children.kids;
      var rs := DumpChildren(style, a, kids, 0, RootChildPrefix, 0).value;
      DumpRendered(style, a, kids, 0, RootChildPrefix, 0);
      RenderedAppend(style, a, head, rs);
    }
  }

  // ---------------------------------------------------------------------------
  // Selection pinning
  // ---------------------------------------------------------------------------

  /** Whether some row shows `pinned`. */
  predicate Shows(rows: seq<Row>, pinned: Option<NodeId>)
  {
    pinned.Some? && exists j :: 0 <= j < |rows| && rows[j].node == pinned.value
  }

  /**
    The index selected after a walk: `_add` records every row whose node is the pinned
    one, so the last such row wins; with no such row the cursor falls back to 0.
  */
  function PinIndex(rows: seq<Row>, pinned: Option<NodeId>): (k: nat)
    ensures |rows| > 0 ==> k < |rows|
    ensures Shows(rows, pinned) ==>
      k < |rows| && rows[k].node == pinned.value
      && forall j :: k < j < |rows| ==> rows[j].node != pinned.value
    ensures !Shows(rows, pinned) ==> k == 0
  {
    if |rows| == 0 then 0
    else
      var front := rows[..|rows| - 1];
      var k := PinIndex(front, pinned);
      if pinned == Some(rows[|rows| - 1].node) then |rows| - 1
      else
        assert Shows(rows, pinned) ==> Shows(front, pinned) by {
          if Shows(rows, pinned) {
            var j :| 0 <= j < |rows| && rows[j].node == pinned.value;
            assert front[j].node == pinned.value;
          }
        }
        k
  }

  // ---------------------------------------------------------------------------
  // The widget's state and its transitions
  // ---------------------------------------------------------------------------

  /**
    The widget: the node arena (`next` is the first identity never handed out), the
    root last given to `setData`, the list rows, the selected index, and the node
    pinned by the last walk that found a non-empty list.
  */
  datatype Tree = Tree(
    style: Style,
    arena: Arena,
    next: nat,
    root: NodeId,
    rows: seq<Row>,
    selected: nat,
    pinned: Option<NodeId>)

  predicate FreshAbove(a: Arena, next: nat)
  {
    forall q :: q in a ==> q < next
  }

  /** Every state the widget shows between events: the rows are the walk of the tree. */
  predicate Valid(t: Tree)
  {
    && t.root in t.arena
    && FreshAbove(t.arena, t.next)
    && Walk(t.style, t.arena, t.root) == Ok(t.rows)
    && (|t.rows| > 0 ==> t.selected < |t.rows|)
  }

  /** The widget before its first `setData`: an empty list. */
  function Empty(style: Style): Tree
  {
    Tree(style, map[], 0, 0, [], 0, None)
  }

  /** What an event does to the widget. */
  datatype Effect =
    | Unchanged                 // the handler returned early
    | Load(node: NodeId)        // the loader was called for this node; its callback is pending
    | Redrawn(tree: Tree)       // the tree changed and was walked again
    | Crashed(fault: Fault)     // the handler threw

  /** The node `walk` pins: the selected row's node, or the one pinned before if the list is empty. */
  function PinnedBefore(t: Tree): Option<NodeId>
    requires |t.rows| > 0 ==> t.selected < |t.rows|
  {
    if |t.rows| > 0 then Some(t.rows[t.selected].node) else t.pinned
  }

  /** `setData(data)`: remember the root and walk it, keeping the cursor on the pinned node. */
  function SetData(t: Tree, a: Arena, next: nat, root: NodeId): (e: Effect)
    requires root in a && FreshAbove(a, next)
    requires |t.rows| > 0 ==> t.selected < |t.rows|
    ensures e.Redrawn? || e == Crashed(DepthAssertion)
    ensures e.Redrawn? <==> Walk(t.style, a, root).Ok?
    ensures e.Redrawn? ==> Valid(e.tree)
    ensures e.Redrawn? ==> e.tree.arena == a && e.tree.root == root && e.tree.next == next
    ensures e.Redrawn? ==> e.tree.pinned == PinnedBefore(t)
    ensures e.Redrawn? && Shows(e.tree.rows, PinnedBefore(t)) ==>
      e.tree.rows[e.tree.selected].node == PinnedBefore(t).value
    ensures e.Redrawn? && !Shows(e.tree.rows, PinnedBefore(t)) ==> e.tree.selected == 0
  {
    var pinned := PinnedBefore(t);
    match Walk(t.style, a, root)
    case Err(f) => Crashed(f)
    case Ok(rows) => Redrawn(Tree(t.style, a, next, root, rows, PinIndex(rows, pinned), pinned))
  }

  /** `getSelectedItem().node`, absent when the list is empty. */
  function SelectedNode(t: Tree): (r: Option<NodeId>)
    requires Valid(t)
    ensures r.Some? <==> |t.rows| > 0
    ensures r.Some? ==> r.value in t.arena
  {
    if |t.rows| > 0 then Some(t.rows[t.selected].node) else None
  }

  /** The hosting list moves its cursor (arrow keys, mouse). */
  function Select(t: Tree, k: nat): (r: Tree)
    requires Valid(t) && k < |t.rows|
    ensures Valid(r) && r.selected == k
    ensures r.arena == t.arena && r.rows == t.rows
  {
    t.(selected := k)
  }

  /**
    `expandSelected`: nothing for an expanded node; a call of the loader while the
    children are a function; otherwise the array is reused at once (`dummy`), the node
    is marked expanded and the tree is walked again.
  */
  function ExpandSelected(t: Tree): (e: Effect)
    requires Valid(t)
    ensures |t.rows| == 0 ==> e == Crashed(NoSelectedItem)
    ensures |t.rows| > 0 && t.arena[t.rows[t.selected].node].expanded ==> e == Unchanged
    ensures e.Load? ==>
      && e.node == t.rows[t.selected].node
      && !t.arena[e.node].expanded && t.arena[e.node].children.Unloaded?
    ensures |t.rows| > 0 && t.arena[t.rows[t.selected].node].children.Loaded? ==> !e.Load?
    ensures e.Redrawn? ==> Valid(e.tree) && e.tree.pinned == PinnedBefore(t)
    ensures e.Redrawn? && Shows(e.tree.rows, PinnedBefore(t)) ==>
      e.tree.rows[e.tree.selected].node == PinnedBefore(t).value
    ensures e.Redrawn? && !Shows(e.tree.rows, PinnedBefore(t)) ==> e.tree.selected == 0
    ensures |t.rows| > 0 && !t.arena[t.rows[t.selected].node].expanded ==>
      var n := t.rows[t.selected].node;
      t.arena[n].children.Unloaded? ==> e == Load(n)
    ensures |t.rows| > 0 && !t.arena[t.rows[t.selected].node].expanded ==>
      var n := t.rows[t.selected].node;
      t.arena[n].children.Loaded? ==>
        && (e.Redrawn? || e == Crashed(DepthAssertion))
        && (e.Redrawn? <==> Walk(t.style, t.arena[n := t.arena[n].(expanded := true)], t.root).Ok?)
    ensures e.Redrawn? ==>
      var n := t.rows[t.selected].node;
      && t.arena[n].children.Loaded?
      && e.tree.arena == t.arena[n := t.arena[n].(expanded := true)]
      && e.tree.root == t.root && e.tree.next == t.next
  {
    if |t.rows| == 0 then Crashed(NoSelectedItem)
    else
      var n := t.rows[t.selected].node;
      var node := t.arena[n];
      if node.expanded then Unchanged
      else
        match node.children
        case Unloaded => Load(n)
        case Loaded(_) => SetData(t, t.arena[n := node.(expanded := true)], t.next, t.root)
  }

  /** What the loader hands its callback. */
  datatype LoadOutcome = Failed | Delivered(items: seq<Label>)

  /** A fresh node made by the loader: collapsed, with its own loader as children. */
  function FreshNode(l: Label): Node
  {
    Node(l, false, Unloaded)
  }

  /** The identity `Install` gives the `j`-th delivered item. */
  function FreshId(next: nat, j: nat): NodeId
  {
    next + j
  }

  /** Allocates the delivered items at identities `next`, `next + 1`, ... */
  function Install(a: Arena, next: nat, items: seq<Label>): (r: Arena)
    requires FreshAbove(a, next)
    ensures FreshAbove(r, next + |items|)
    ensures forall q :: q in a ==> q in r && r[q] == a[q]
    ensures forall j :: 0 <= j < |items| ==> FreshId(next, j) in r && r[FreshId(next, j)] == FreshNode(items[j])
    ensures forall q :: q in r ==> q in a || next <= q < next + |items|
  {
    if |items| == 0 then a
    else
      var front := items[..|items| - 1];
      assert forall j :: 0 <= j < |front| ==> front[j] == items[j];
      Install(a, next, front)[FreshId(next, |items| - 1) := FreshNode(items[|items| - 1])]
  }

  /** The identities `Install` hands out, in order. */
  function FreshIds(next: nat, count: nat): (ids: seq<NodeId>)
    ensures |ids| == count && forall j :: 0 <= j < count ==> ids[j] == FreshId(next, j)
  {
    seq(count, (j: int) requires 0 <= j => FreshId(next, j))
  }

  /**
    The loader's callback for node `n`: an error leaves everything as it is; an array
    becomes the node's children, the node is marked expanded and the tree is walked
    again. The callback does not look at the node's state first.
  */
  function CompleteLoad(t: Tree, n: NodeId, outcome: LoadOutcome): (e: Effect)
    requires Valid(t) && n in t.arena
    ensures outcome.Failed? ==> e == Unchanged
    ensures e.Redrawn? ==> Valid(e.tree) && e.tree.pinned == PinnedBefore(t)
    ensures e.Redrawn? && Shows(e.tree.rows, PinnedBefore(t)) ==>
      e.tree.rows[e.tree.selected].node == PinnedBefore(t).value
    ensures e.Redrawn? && !Shows(e.tree.rows, PinnedBefore(t)) ==> e.tree.selected == 0
    ensures outcome.Delivered? ==> e.Redrawn? || e == Crashed(DepthAssertion)
    ensures outcome.Delivered? ==>
      var a := Install(t.arena, t.next, outcome.items);
      var node := t.arena[n].(children := Loaded(FreshIds(t.next, |outcome.items|)), expanded := true);
      (e.Redrawn? <==> Walk(t.style, a[n := node], t.root).Ok?)
    ensures e.Redrawn? ==>
      var items := outcome.items;
      var a := e.tree.arena;
      && n in a && a[n] == Node(t.arena[n].caption, true, Loaded(FreshIds(t.next, |items|)))
      && (forall q :: q in t.arena && q != n ==> q in a && a[q] == t.arena[q])
      && (forall j :: 0 <= j < |items| ==> FreshId(t.next, j) in a && a[FreshId(t.next, j)] == FreshNode(items[j]))
      && (forall q :: q in a ==> q in t.arena || t.next <= q < t.next + |items|)
      && e.tree.next == t.next + |items| && e.tree.root == t.root
  {
    match outcome
    case Failed => Unchanged
    case Delivered(items) =>
      var a := Install(t.arena, t.next, items);
      assert n < t.next;
      var node := t.arena[n].(children := Loaded(FreshIds(t.next, |items|)), expanded := true);
      SetData(t, a[n := node], t.next + |items|, t.root)
  }

  /** `collapseSelected`: nothing for a collapsed node; otherwise only `expanded` is cleared. */
  function CollapseSelected(t: Tree): (e: Effect)
    requires Valid(t)
    ensures |t.rows| == 0 ==> e == Crashed(NoSelectedItem)
    ensures |t.rows| > 0 && !t.arena[t.rows[t.selected].node].expanded ==> e == Unchanged
    ensures |t.rows| > 0 && t.arena[t.rows[t.selected].node].expanded ==> e.Redrawn?
    ensures e.Redrawn? ==> Valid(e.tree) && e.tree.pinned == PinnedBefore(t)
    ensures e.Redrawn? && Shows(e.tree.rows, PinnedBefore(t)) ==>
      e.tree.rows[e.tree.selected].node == PinnedBefore(t).value
    ensures e.Redrawn? && !Shows(e.tree.rows, PinnedBefore(t)) ==> e.tree.selected == 0
    ensures !e.Load?
    ensures e.Redrawn? ==>
      var n := t.rows[t.selected].node;
      && t.arena[n].expanded
      && e.tree.arena == t.arena[n := t.arena[n].(expanded := false)]
      && e.tree.root == t.root && e.tree.next == t.next
  {
    if |t.rows| == 0 then Crashed(NoSelectedItem)
    else
      var n := t.rows[t.selected].node;
      var node := t.arena[n];
      if !node.expanded then Unchanged
      else
        WalkSurvivesClose(t.style, t.arena, t.root, n);
        SetData(t, Close(t.arena, n), t.next, t.root)
  }
}
