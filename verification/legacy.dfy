/**
  The single-file legacy client: its padding helper `w`, the attribute lines built
  with it, the children its loader assembles from the three browse results, and the
  monitored-item table after an item is removed.
*/
module LegacyClient {
  import opened Base
  import opened Text
  import opened TreeItems
  import opened WidgetTree
  import Model
  import View

  // ---------------------------------------------------------------------------
  // The padding helper
  // ---------------------------------------------------------------------------

  /** `Array(25).join(c)`: 24 copies of `c`. */
  const FillCount: nat := 24

  function Fill(c: char, k: nat): (r: string)
    ensures |r| == k && forall j :: 0 <= j < k ==> r[j] == c
  {
    seq(k, j => c)
  }

  /** `c = c || " "`, then `c[0]`. */
  function FillChar(c: Option<string>): char
  {
    if c.Some? && c.value != "" then c.value[0] else ' '
  }

  /** How many characters `substr(0, l)` keeps of a string of length `n`. */
  function Kept(l: int, n: nat): (k: nat)
    ensures k <= n
    ensures l <= 0 ==> k == 0
    ensures 0 <= l <= n ==> k == l
    ensures l >= n ==> k == n
  {
    if l <= 0 then 0 else if l >= n then n else l
  }

  /** `w(s, l, c)`: `s` followed by 24 fill characters, cut to `l` characters. */
  function W(s: string, l: int, c: Option<string>): (r: string)
    ensures |r| == Kept(l, |s| + FillCount)
    ensures forall k :: 0 <= k < |r| ==> r[k] == if k < |s| then s[k] else FillChar(c)
  {
    (s + Fill(FillChar(c), FillCount))[..Kept(l, |s| + FillCount)]
  }

  /**
    Within reach of the fill, `w` pads `s` to exactly `l` characters; a shorter `l`
    cuts `s` down instead.
  */
  lemma WPadsOrCuts(s: string, l: int, c: Option<string>)
    ensures |s| <= l <= |s| + FillCount ==> W(s, l, c) == s + Fill(FillChar(c), l - |s|)
    ensures 0 <= l <= |s| ==> W(s, l, c) == s[..l]
    ensures l > |s| + FillCount ==> |W(s, l, c)| < l
  {
    var r := W(s, l, c);
    if |s| <= l <= |s| + FillCount {
      assert r == s + Fill(FillChar(c), l - |s|);
    }
    if 0 <= l <= |s| {
      assert r == s[..l];
    }
  }

  /** The attribute list's width minus the key column, the ": " and the borders. */
  function ValueWidth(listWidth: int): int
  {
    listWidth - 28
  }

  /** `makeItems`: the key padded with dots to 25, ": ", the value padded with blanks. */
  function MakeItems(rows: seq<View.AttributeRow>, listWidth: int): (r: seq<string>)
    ensures |r| == |rows|
    ensures forall k :: 0 <= k < |rows| ==>
      r[k] == W(rows[k].attribute, 25, Some(".")) + ": " + W(rows[k].text, ValueWidth(listWidth), None)
  {
    seq(|rows|, k requires 0 <= k < |rows| =>
      W(rows[k].attribute, 25, Some(".")) + ": " + W(rows[k].text, ValueWidth(listWidth), None))
  }

  /** Any non-empty key is padded to the full key column, so the ": " lines up on every line. */
  lemma KeyColumnAligned(rows: seq<View.AttributeRow>, listWidth: int, k: nat)
    requires k < |rows| && rows[k].attribute != ""
    ensures var line := MakeItems(rows, listWidth)[k];
      |line| >= 27 && line[25..27] == ": "
      && forall j :: 0 <= j < 25 ==> line[j] == if j < |rows[k].attribute| then rows[k].attribute[j] else '.'
  {
    var key := W(rows[k].attribute, 25, Some("."));
    assert |key| == 25;
    var line := MakeItems(rows, listWidth)[k];
    assert line == key + ": " + W(rows[k].text, ValueWidth(listWidth), None);
    assert line[25..27] == ": ";
  }

  /** The current `makeItems`, given this padding helper, builds the same lines. */
  lemma SameItemsAsCurrentView(rows: seq<View.AttributeRow>, listWidth: int)
    ensures View.MakeItems(rows, ValueWidth(listWidth), (s: string, l: int, c: string) => W(s, l, Some(c)))
         == MakeItems(rows, listWidth)
  {
    assert W("", 0, Some(" ")) == W("", 0, None);
    forall s: string, l: int
      ensures W(s, l, Some(" ")) == W(s, l, None)
    {
    }
  }

  // ---------------------------------------------------------------------------
  // The loader
  // ---------------------------------------------------------------------------

  const OrganizesArrow: string := "◊-o-> "
  const HasPropertyArrow: string := "╙p-> "
  const HasComponentArrow: string := "╙c-> "

  const NoConnectionMessage: string := "No Connection"

  /** The fields of a reference the legacy loader reads; `refClass` is `ref.class`. */
  datatype LegacyReference = LegacyReference(browseName: string, nodeId: string, refClass: Option<int>)

  /** One browse result; `references` may be missing. */
  datatype LegacyResult = LegacyResult(references: Option<seq<LegacyReference>>)

  /** What the browse call hands its callback. */
  datatype LegacyBrowse = BrowseError(message: string) | BrowseOk(results: seq<LegacyResult>)

  /**
    What becomes of the loader call: it calls back with an error and, from the browse
    callback, a child list; or the browse callback throws reading a missing result and
    never calls back.
  */
  datatype Callback =
    | CalledBack(err: Option<string>, children: Option<seq<LegacyItem>>)
    | ThrewInCallback

  /** `new TreeItem({arrow, browseName, nodeId, class, children})`: no value is given. */
  function ItemOf(arrow: string, ref: LegacyReference): LegacyItem
  {
    LegacyItem(arrow, ref.browseName, ref.refClass, None, ref.nodeId)
  }

  /** The items one browse result contributes, all with the same arrow, in server order. */
  function ItemsOf(arrow: string, refs: seq<LegacyReference>): (items: seq<LegacyItem>)
    ensures |items| == |refs|
    ensures forall k :: 0 <= k < |refs| ==> items[k] == ItemOf(arrow, refs[k])
  {
    seq(|refs|, k requires 0 <= k < |refs| => ItemOf(arrow, refs[k]))
  }

  /** Every one of the three results is there and has its references. */
  predicate Complete(results: seq<LegacyResult>)
  {
    |results| >= 3 && forall k :: 0 <= k < 3 ==> results[k].references.Some?
  }

  /**
    `expand_opcua_node` of the legacy client: Organizes, then HasProperty, then
    HasComponent references, each marked with its arrow.
  */
  function ExpandNode(hasSession: bool, browse: LegacyBrowse): (cb: Callback)
    ensures !hasSession <==> cb == CalledBack(Some(NoConnectionMessage), None)
    ensures hasSession && browse.BrowseError? ==> cb == CalledBack(Some(browse.message), Some([]))
    ensures cb.ThrewInCallback? <==> hasSession && browse.BrowseOk? && !Complete(browse.results)
    ensures hasSession && browse.BrowseOk? && Complete(browse.results) ==>
      var organized := browse.results[0].references.value;
      var properties := browse.results[1].references.value;
      var components := browse.results[2].references.value;
      cb.CalledBack? && cb.err.None? && cb.children.Some?
      && Layout(cb.children.value, organized, properties, components)
  {
    if !hasSession then CalledBack(Some(NoConnectionMessage), None)
    else
      match browse
      case BrowseError(m) => CalledBack(Some(m), Some([]))
      case BrowseOk(results) =>
        if !Complete(results) then ThrewInCallback
        else
          CalledBack(None, Some(Assemble(results[0].references.value, results[1].references.value,
                                         results[2].references.value)))
  }

  /**
    `cs` holds one item per reference: the Organizes items, then the HasProperty ones,
    then the HasComponent ones, each run in server order and marked with its arrow.
  */
  ghost predicate Layout(cs: seq<LegacyItem>, organized: seq<LegacyReference>, properties: seq<LegacyReference>,
                         components: seq<LegacyReference>)
  {
    && |cs| == |organized| + |properties| + |components|
    && (forall k :: 0 <= k < |organized| ==> cs[k] == ItemOf(OrganizesArrow, organized[k]))
    && (forall k :: 0 <= k < |properties| ==> cs[|organized| + k] == ItemOf(HasPropertyArrow, properties[k]))
    && (forall k :: 0 <= k < |components| ==>
          cs[|organized| + |properties| + k] == ItemOf(HasComponentArrow, components[k]))
  }

  /** The child list of a complete browse. */
  function Assemble(organized: seq<LegacyReference>, properties: seq<LegacyReference>, components: seq<LegacyReference>)
    : (cs: seq<LegacyItem>)
    ensures Layout(cs, organized, properties, components)
  {
    AssembleLayout(organized, properties, components);
    ItemsOf(OrganizesArrow, organized) + ItemsOf(HasPropertyArrow, properties) + ItemsOf(HasComponentArrow, components)
  }

  lemma AssembleLayout(organized: seq<LegacyReference>, properties: seq<LegacyReference>, components: seq<LegacyReference>)
    ensures Layout(ItemsOf(OrganizesArrow, organized) + ItemsOf(HasPropertyArrow, properties)
                   + ItemsOf(HasComponentArrow, components), organized, properties, components)
  {
    var o := ItemsOf(OrganizesArrow, organized);
    var p := ItemsOf(HasPropertyArrow, properties);
    var c := ItemsOf(HasComponentArrow, components);
    var cs := o + p + c;
    forall k | 0 <= k < |organized|
      ensures cs[k] == ItemOf(OrganizesArrow, organized[k])
    {
      assert cs[k] == o[k];
    }
    forall k | 0 <= k < |properties|
      ensures cs[|organized| + k] == ItemOf(HasPropertyArrow, properties[k])
    {
      assert cs[|organized| + k] == p[k];
    }
    forall k | 0 <= k < |components|
      ensures cs[|organized| + |properties| + k] == ItemOf(HasComponentArrow, components[k])
    {
      assert cs[|organized| + |properties| + k] == c[k];
    }
  }

  /** The legacy arrows tell the three reference kinds apart, and none is a prefix of another. */
  lemma ArrowsDistinct()
    ensures OrganizesArrow != HasPropertyArrow && HasPropertyArrow != HasComponentArrow
      && OrganizesArrow != HasComponentArrow
    ensures forall a, b ::
      (a in {OrganizesArrow, HasPropertyArrow, HasComponentArrow}
       && b in {OrganizesArrow, HasPropertyArrow, HasComponentArrow} && a != b)
      ==> !(|a| <= |b| && b[..|a|] == a)
  {
    assert OrganizesArrow[0] != HasPropertyArrow[0];
    assert OrganizesArrow[0] != HasComponentArrow[0];
    assert HasPropertyArrow[1] != HasComponentArrow[1];
  }

  /**
    What the tree makes of the callback: an error leaves the node as it was, a child
    list is installed; a throw in the browse callback never reaches the tree, and a
    callback with neither fails the tree's array assertion.
  */
  function TreeOutcome(cb: Callback): (o: Option<LoadOutcome>)
    ensures o.None? <==> cb.ThrewInCallback? || (cb.err.None? && cb.children.None?)
    ensures o == Some(Failed) <==> cb.CalledBack? && cb.err.Some?
    ensures o.Some? && o.value.Delivered? ==>
      cb.CalledBack? && cb.children.Some? && |o.value.items| == |cb.children.value|
      && forall k :: 0 <= k < |o.value.items| ==> o.value.items[k] == Legacy(cb.children.value[k])
  {
    match cb
    case ThrewInCallback => None
    case CalledBack(err, children) =>
      if err.Some? then Some(Failed)
      else if children.None? then None  // the tree's array assertion throws
      else
        var cs := children.value;
        Some(Delivered(seq(|cs|, k requires 0 <= k < |cs| => Legacy(cs[k]))))
  }

  /**
    A legacy child shows a value exactly when its reference reported the Variable
    class, after the browse name and its arrow.
  */
  lemma LegacyChildName(arrow: string, ref: LegacyReference)
    ensures var name := LegacyName(ItemOf(arrow, ref));
      name[..|arrow| + 1 + |ref.browseName|] == arrow + " " + ref.browseName
      && (|name| > |arrow| + 1 + |ref.browseName| <==> ref.refClass == Some(VariableClass))
  {
  }

  // ---------------------------------------------------------------------------
  // The root
  // ---------------------------------------------------------------------------

  /**
    The legacy `populateTree`: the same root as the current view, drawn with the
    legacy glyphs, so the single collapsed root row carries "► ".
  */
  function PopulateTree(t: Tree): (e: Effect)
    requires t.style == LegacyGlyphs
    requires |t.rows| > 0 ==> t.selected < |t.rows|
    ensures e.Redrawn?
    ensures e.tree.arena == View.RootArena && e.tree.root == View.RootId
    ensures e.tree.rows == [Row(View.RootId, 0, " ", true, [Plain(" └"), Plain("► "), Plain(View.RootName)])]
    ensures e.tree.selected == 0
  {
    var a := View.RootArena;
    var content := Render(LegacyGlyphs, a[View.RootId], " ", true);
    assert content[2..] == [Plain(View.RootName)];
    assert content == [content[0], content[1]] + content[2..];
    assert content[0] == Plain(" └") by {
      assert " " + [Branch(true)] == " └";
    }
    assert content[1] == Plain("► ");
    assert content == [Plain(" └"), Plain("► "), Plain(View.RootName)];
    assert !Opens(a, View.RootId);
    assert Walk(LegacyGlyphs, a, View.RootId) == Ok([RootRow(LegacyGlyphs, a, View.RootId)]);
    SetData(t, a, 1, View.RootId)
  }

  // ---------------------------------------------------------------------------
  // The monitored-item table
  // ---------------------------------------------------------------------------

  /** A table row as handed to `setRows`. */
  function Cells(r: Model.MonitoredRow): seq<string>
  {
    [r.browseName, r.nodeId, r.value]
  }

  /** The single-blank row shown in place of an empty table. */
  const Placeholder: seq<seq<string>> := [[" "]]

  /** The rows handed to `setRows`: the table, or the placeholder when it is empty. */
  function Shown(rows: seq<Model.MonitoredRow>): (r: seq<seq<string>>)
    ensures |r| >= 1
    ensures r == Placeholder <==> |rows| == 0
    ensures |rows| > 0 ==> |r| == |rows| && forall k :: 0 <= k < |rows| ==> r[k] == Cells(rows[k])
  {
    if |rows| > 0 then
      var r := seq(|rows|, k requires 0 <= k < |rows| => Cells(rows[k]));
      assert |r[0]| == 3;
      r
    else Placeholder
  }

  /**
    `unmonitor_item` of the legacy client: the last row of the node (its `index`, -1
    when there is none) is spliced out, every other row keeping its place, and the
    table is redrawn, with the placeholder once no row is left.
  */
  method Unmonitor(rows: seq<Model.MonitoredRow>, nodeId: string) returns (remaining: seq<Model.MonitoredRow>, index: int, shown: seq<seq<string>>)
    ensures index == -1 <==> forall j :: 0 <= j < |rows| ==> rows[j].nodeId != nodeId
    ensures index >= 0 ==>
      && index < |rows| && rows[index].nodeId == nodeId
      && (forall j :: index < j < |rows| ==> rows[j].nodeId != nodeId)
      && remaining == rows[..index] + rows[index + 1..]
    ensures (exists j :: 0 <= j < |rows| && rows[j].nodeId == nodeId) ==> |remaining| == |rows| - 1
    ensures (forall j :: 0 <= j < |rows| ==> rows[j].nodeId != nodeId) ==> remaining == rows
    ensures Model.Matches(remaining, nodeId) == if Model.Matches(rows, nodeId) > 0 then Model.Matches(rows, nodeId) - 1 else 0
    ensures shown == Shown(remaining)
    ensures shown == Placeholder <==> |remaining| == 0
  {
    remaining, index := Model.RemoveMonitored(rows, nodeId);
    if index >= 0 {
      Model.RemovedOneMatch(rows, nodeId, index);
    } else {
      Model.NoMatches(rows, nodeId);
    }
    shown := Shown(remaining);
  }
}
