/**
  The view's side of the tree: the root it installs, the loader it hands the tree
  (sort the browsed children by display name, wrap each in a tree item), and the
  attribute pane's row building.
*/
module View {
  import opened Base
  import opened Text
  import opened TreeItems
  import opened WidgetTree
  import Model

  type NodeChild = Model.NodeChild

  // ---------------------------------------------------------------------------
  // Sorting the loaded children by display name
  // ---------------------------------------------------------------------------

  /** The comparator handed to `Array.prototype.sort`: -1, 1, or 0 for a tie. */
  function Compare(a: string, b: string): int
  {
    if Less(a, b) then -1 else if Less(b, a) then 1 else 0
  }

  /** The comparator is a consistent three-way comparison: antisymmetric, zero exactly on equal names. */
  lemma CompareConsistent(a: string, b: string)
    ensures Compare(a, b) == -Compare(b, a)
    ensures Compare(a, b) == 0 <==> a == b
  {
    LessIrreflexive(a);
    LessTrichotomous(a, b);
    if Less(a, b) && Less(b, a) {
      LessTransitive(a, b, a);
    }
  }

  /** No later child has a display name that sorts before an earlier one. */
  predicate Sorted(s: seq<NodeChild>)
  {
    forall i, j :: 0 <= i < j < |s| ==> !Less(s[j].displayName, s[i].displayName)
  }

  /** In a sorted list the comparator never reports a pair out of order. */
  lemma SortedAgreesWithComparator(s: seq<NodeChild>, i: nat, j: nat)
    requires Sorted(s) && i < j < |s|
    ensures Compare(s[i].displayName, s[j].displayName) <= 0
  {
    CompareConsistent(s[i].displayName, s[j].displayName);
  }

  lemma ConsSorted(h: NodeChild, t: seq<NodeChild>)
    requires Sorted(t)
    requires forall k :: 0 <= k < |t| ==> !Less(t[k].displayName, h.displayName)
    ensures Sorted([h] + t)
  {
    var s := [h] + t;
    forall i, j | 0 <= i < j < |s|
      ensures !Less(s[j].displayName, s[i].displayName)
    {
      assert s[j] == t[j - 1];
      if i > 0 {
        assert s[i] == t[i - 1];
      }
    }
  }

  /** Inserts `x` after every child whose name does not sort after it. */
  function Insert(x: NodeChild, s: seq<NodeChild>): (r: seq<NodeChild>)
    requires Sorted(s)
    ensures Sorted(r)
    ensures multiset(r) == multiset(s) + multiset{x}
  {
    if |s| == 0 then [x]
    else if Less(x.displayName, s[0].displayName) then
      assert forall k :: 0 <= k < |s| ==> !Less(s[k].displayName, x.displayName) by {
        forall k | 0 <= k < |s|
          ensures !Less(s[k].displayName, x.displayName)
        {
          LessIrreflexive(s[0].displayName);
          if Less(s[k].displayName, x.displayName) {
            LessTransitive(s[k].displayName, x.displayName, s[0].displayName);
          }
        }
      }
      ConsSorted(x, s);
      [x] + s
    else
      var t := Insert(x, s[1..]);
      assert s == [s[0]] + s[1..];
      assert forall k :: 0 <= k < |t| ==> !Less(t[k].displayName, s[0].displayName) by {
        forall k | 0 <= k < |t|
          ensures !Less(t[k].displayName, s[0].displayName)
        {
          assert t[k] in multiset(t);
          if t[k] != x {
            assert t[k] in multiset(s[1..]);
            var m :| 0 <= m < |s[1..]| && s[1..][m] == t[k];
            assert s[m + 1] == t[k];
          }
        }
      }
      ConsSorted(s[0], t);
      [s[0]] + t
  }

  /**
    `children.sort(...)`: an insertion sort that takes the children in order and puts
    each after the ones already placed whose names do not sort after it, which is what
    a stable sort with this comparator produces.
  */
  function SortByName(s: seq<NodeChild>): (r: seq<NodeChild>)
    ensures Sorted(r)
    ensures multiset(r) == multiset(s)
  {
    if |s| == 0 then []
    else
      assert s == s[..|s| - 1] + [s[|s| - 1]];
      Insert(s[|s| - 1], SortByName(s[..|s| - 1]))
  }

  /** The children named `d`, in their order. */
  function WithName(s: seq<NodeChild>, d: string): seq<NodeChild>
  {
    if |s| == 0 then [] else (if s[0].displayName == d then [s[0]] else []) + WithName(s[1..], d)
  }

  lemma {:induction false} WithNameAppend(xs: seq<NodeChild>, ys: seq<NodeChild>, d: string)
    ensures WithName(xs + ys, d) == WithName(xs, d) + WithName(ys, d)
  {
    if |xs| == 0 {
      assert xs + ys == ys;
    } else {
      var h := if xs[0].displayName == d then [xs[0]] else [];
      assert (xs + ys)[0] == xs[0] && (xs + ys)[1..] == xs[1..] + ys;
      assert WithName(xs + ys, d) == h + WithName(xs[1..] + ys, d);
      WithNameAppend(xs[1..], ys, d);
      assert WithName(xs, d) == h + WithName(xs[1..], d);
    }
  }

  lemma {:induction false} WithNameMembers(s: seq<NodeChild>, d: string)
    ensures forall e :: e in WithName(s, d) ==> e in s && e.displayName == d
  {
    if |s| > 0 {
      WithNameMembers(s[1..], d);
    }
  }

  lemma WithNameHead(s: seq<NodeChild>)
    requires |s| > 0
    ensures WithName(s, s[0].displayName) != []
  {
    assert WithName(s, s[0].displayName)[0] == s[0];
  }

  lemma {:induction false} WithNameNone(s: seq<NodeChild>, d: string)
    requires forall k :: 0 <= k < |s| ==> s[k].displayName != d
    ensures WithName(s, d) == []
  {
    if |s| > 0 {
      WithNameNone(s[1..], d);
    }
  }

  lemma {:induction false} InsertWithName(x: NodeChild, s: seq<NodeChild>, d: string)
    requires Sorted(s)
    ensures WithName(Insert(x, s), d) == WithName(s, d) + (if x.displayName == d then [x] else [])
  {
    var mx: seq<NodeChild> := if x.displayName == d then [x] else [];
    if |s| == 0 {
      assert Insert(x, s) == [x];
      assert WithName([x], d) == mx + WithName([x][1..], d);
    } else if Less(x.displayName, s[0].displayName) {
      assert Insert(x, s) == [x] + s;
      assert ([x] + s)[1..] == s;
      assert WithName([x] + s, d) == mx + WithName(s, d);
      if x.displayName == d {
        forall k | 0 <= k < |s|
          ensures s[k].displayName != d
        {
          LessIrreflexive(s[0].displayName);
        }
        WithNameNone(s, d);
      }
    } else {
      var t := Insert(x, s[1..]);
      var m0: seq<NodeChild> := if s[0].displayName == d then [s[0]] else [];
      assert Insert(x, s) == [s[0]] + t;
      assert ([s[0]] + t)[1..] == t;
      assert WithName([s[0]] + t, d) == m0 + WithName(t, d);
      InsertWithName(x, s[1..], d);
      assert WithName(s, d) == m0 + WithName(s[1..], d);
    }
  }

  lemma WithNameSnoc(s: seq<NodeChild>, d: string)
    requires |s| > 0
    ensures WithName(s, d) == WithName(s[..|s| - 1], d) + (if s[|s| - 1].displayName == d then [s[|s| - 1]] else [])
  {
    var last := s[|s| - 1];
    assert s == s[..|s| - 1] + [last];
    WithNameAppend(s[..|s| - 1], [last], d);
    assert WithName([last], d) == (if last.displayName == d then [last] else []) + WithName([last][1..], d);
  }

  /** The sort is stable: the children sharing a display name keep their relative order. */
  lemma {:induction false} SortStable(s: seq<NodeChild>, d: string)
    ensures WithName(SortByName(s), d) == WithName(s, d)
  {
    if |s| > 0 {
      var init, last := s[..|s| - 1], s[|s| - 1];
      assert SortByName(s) == Insert(last, SortByName(init));
      SortStable(init, d);
      InsertWithName(last, SortByName(init), d);
      WithNameSnoc(s, d);
    }
  }

  /**
    Sorted and stable pin the order down: a list sorted by display name that keeps
    every name's children in their original order is the one `SortByName` builds.
  */
  lemma {:induction false} SortedStableUnique(x: seq<NodeChild>, y: seq<NodeChild>)
    requires Sorted(x) && Sorted(y)
    requires forall d :: WithName(x, d) == WithName(y, d)
    ensures x == y
    decreases |x| + |y|
  {
    if |x| == 0 && |y| == 0 {
    } else if |y| == 0 {
      WithNameHead(x);
      assert false;
    } else if |x| == 0 {
      WithNameHead(y);
      assert false;
    } else {
      var a, b := x[0].displayName, y[0].displayName;
      assert WithName(y, a) == WithName(x, a) == [x[0]] + WithName(x[1..], a);
      WithNameMembers(y, a);
      assert x[0] in WithName(y, a);
      var m :| 0 <= m < |y| && y[m] == x[0];
      assert !Less(a, b) by {
        if m > 0 {
          assert !Less(y[m].displayName, y[0].displayName);
        } else {
          LessIrreflexive(a);
        }
      }
      assert WithName(x, b) == WithName(y, b) == [y[0]] + WithName(y[1..], b);
      WithNameMembers(x, b);
      assert y[0] in WithName(x, b);
      var m' :| 0 <= m' < |x| && x[m'] == y[0];
      assert !Less(b, a) by {
        if m' > 0 {
          assert !Less(x[m'].displayName, x[0].displayName);
        } else {
          LessIrreflexive(b);
        }
      }
      LessTrichotomous(a, b);
      assert a == b;
      assert WithName(y, a) == [y[0]] + WithName(y[1..], a);
      assert WithName(y, a)[0] == y[0];
      assert WithName(x, a)[0] == x[0];
      assert x[0] == y[0];
      forall d
        ensures WithName(x[1..], d) == WithName(y[1..], d)
      {
        var mx: seq<NodeChild> := if a == d then [x[0]] else [];
        assert WithName(x, d) == mx + WithName(x[1..], d);
        assert WithName(y, d) == mx + WithName(y[1..], d);
        assert (mx + WithName(x[1..], d))[|mx|..] == WithName(x[1..], d);
        assert (mx + WithName(y[1..], d))[|mx|..] == WithName(y[1..], d);
      }
      SortedStableUnique(x[1..], y[1..]);
      assert x == [x[0]] + x[1..] && y == [y[0]] + y[1..];
    }
  }

  /** Any stable ascending arrangement of the children is exactly the sort's result. */
  lemma SortIsTheStableSort(s: seq<NodeChild>, r: seq<NodeChild>)
    requires Sorted(r)
    requires forall d :: WithName(r, d) == WithName(s, d)
    ensures r == SortByName(s)
  {
    forall d
      ensures WithName(r, d) == WithName(SortByName(s), d)
    {
      SortStable(s, d);
    }
    SortedStableUnique(r, SortByName(s));
  }

  // ---------------------------------------------------------------------------
  // Wrapping the children as tree items
  // ---------------------------------------------------------------------------

  /**
    `new TreeItem({...c, children})` as written: the spread copies the child's
    `nodeClass` key, which the item's `name` never reads, and leaves `class` at its
    default.
  */
  function WrapAsWritten(c: NodeChild): (t: TreeItem)
    ensures t.arrow == c.arrow && t.displayName == c.displayName
    ensures t.itemClass == ObjectClass
    ensures t.nodeClass == Some(c.nodeClass)
  {
    NewTreeItem(ItemOptions(Some(c.arrow), Some(c.displayName), None, None, Some(c.nodeId), Some(c.nodeClass)))
  }

  /** As written, no loaded child's name ever carries a value, Variables included. */
  lemma AsWrittenHidesValues(c: NodeChild)
    ensures |Name(WrapAsWritten(c))| == |c.arrow| + 1
  {
  }

  /** A Variable child whose row shows no value. */
  lemma AsWrittenVariableWithoutValue()
    ensures var c := Model.NodeChild([Plain(Model.OrganizesArrow), Styled(GreenBright, "[V]")], "Temperature", "ns=1;s=Temperature", VariableClass);
      c.nodeClass == VariableClass
      && Name(WrapAsWritten(c)) == [Plain(Model.OrganizesArrow), Styled(GreenBright, "[V]"), Plain(" Temperature")]
  {
    var c := Model.NodeChild([Plain(Model.OrganizesArrow), Styled(GreenBright, "[V]")], "Temperature", "ns=1;s=Temperature", VariableClass);
    var r := Name(WrapAsWritten(c));
    assert " " + c.displayName == " Temperature";
    assert |r| == 3;
    assert r[..2] == c.arrow;
  }

  /** The wrap the `name` getter expects: the node class also becomes the item's `class`. */
  function Wrap(c: NodeChild): (t: TreeItem)
    ensures t.arrow == c.arrow && t.displayName == c.displayName
    ensures t.itemClass == c.nodeClass
    ensures t.nodeId == Some(c.nodeId) && t.nodeClass == Some(c.nodeClass)
  {
    NewTreeItem(ItemOptions(Some(c.arrow), Some(c.displayName), Some(c.nodeClass), None, Some(c.nodeId), Some(c.nodeClass)))
  }

  /** With the class copied, a loaded child shows a value exactly when it is a Variable. */
  lemma WrapShowsValuesOfVariables(c: NodeChild)
    ensures |Name(Wrap(c))| == |c.arrow| + 2 <==> c.nodeClass == VariableClass
    ensures Name(Wrap(c))[..|c.arrow| + 1] == c.arrow + [Plain(" " + c.displayName)]
  {
    var r := Name(Wrap(c));
    assert r[..|c.arrow| + 1] == r[..|c.arrow|] + [r[|c.arrow|]];
  }

  /** Both wraps agree on every field but the class. */
  lemma WrapDiffersOnlyInClass(c: NodeChild)
    ensures Wrap(c) == WrapAsWritten(c).(itemClass := c.nodeClass)
  {
  }

  // ---------------------------------------------------------------------------
  // The loader the view hands the tree
  // ---------------------------------------------------------------------------

  /** The error the loader reports on any failure. */
  const CannotExpandMessage: string := "cannot expand"

  /**
    The wrap a load applies: as written (`fixed` false), or corrected (`fixed` true).
  */
  function WrapWith(fixed: bool, c: NodeChild): (t: TreeItem)
    ensures t.arrow == c.arrow && t.displayName == c.displayName && t.nodeClass == Some(c.nodeClass)
    ensures t.itemClass == (if fixed then c.nodeClass else ObjectClass)
  {
    if fixed then Wrap(c) else WrapAsWritten(c)
  }

  /** The items a successful load delivers: the children in the given order, each wrapped. */
  function Wrapped(fixed: bool, cs: seq<NodeChild>): (items: seq<Label>)
    ensures |items| == |cs|
    ensures forall k :: 0 <= k < |cs| ==> items[k] == Item(WrapWith(fixed, cs[k]))
  {
    seq(|cs|, k requires 0 <= k < |cs| => Item(WrapWith(fixed, cs[k])))
  }

  /** The loader with either wrap: a model failure becomes "cannot expand". */
  function LoadWith(fixed: bool, session: Model.Session, browse: Model.BrowseOutcome): (o: LoadOutcome)
    ensures o.Failed? <==> Model.ExpandNode(session, browse).Err?
    ensures o.Failed? <==> session != Model.Connected
    ensures o.Delivered? ==> o.items == Wrapped(fixed, SortByName(Model.ExpandNode(session, browse).value))
  {
    match Model.ExpandNode(session, browse)
    case Err(_) => Failed
    case Ok(cs) => Delivered(Wrapped(fixed, SortByName(cs)))
  }

  /**
    `View.expand_opcua_node` as written: the model's failure becomes the loader error
    "cannot expand", which the tree answers by leaving the node as it was; the
    children are sorted and wrapped with `class` left at Object.
  */
  function LoadChildren(session: Model.Session, browse: Model.BrowseOutcome): (o: LoadOutcome)
    ensures o.Failed? <==> session != Model.Connected
    ensures o.Delivered? ==> forall k :: 0 <= k < |o.items| ==>
      o.items[k].Item? && o.items[k].item.itemClass == ObjectClass
    ensures o.Delivered? ==> o.items == Wrapped(false, SortByName(Model.ExpandNode(session, browse).value))
  {
    LoadWith(false, session, browse)
  }

  /** The corrected loader: the same, but each item's `class` is the child's node class. */
  function LoadChildrenCorrected(session: Model.Session, browse: Model.BrowseOutcome): (o: LoadOutcome)
    ensures o.Failed? <==> session != Model.Connected
    ensures o.Delivered? ==> o.items == Wrapped(true, SortByName(Model.ExpandNode(session, browse).value))
    ensures o.Delivered? ==> forall k :: 0 <= k < |o.items| ==>
      o.items[k].Item? && o.items[k].item == LoadChildren(session, browse).items[k].item.(itemClass := o.items[k].item.nodeClass.value)
  {
    LoadWith(true, session, browse)
  }

  /**
    A successful load delivers one item per browsed child, none added or dropped, in
    ascending display-name order; this holds for the loader as written and for the
    corrected one alike.
  */
  lemma LoadDeliversEveryChild(fixed: bool, session: Model.Session, browse: Model.BrowseOutcome)
    requires session == Model.Connected
    ensures LoadWith(fixed, session, browse).Delivered?
    ensures DeliversAll(fixed, Model.ExpandNode(session, browse).value, LoadWith(fixed, session, browse).items)
  {
    var cs := Model.ExpandNode(session, browse).value;
    WrappedDelivers(fixed, cs, LoadWith(fixed, session, browse).items);
  }

  /**
    `items` holds one item per child of `cs`, wrapped, none added or dropped, in
    ascending display-name order.
  */
  ghost predicate DeliversAll(fixed: bool, cs: seq<NodeChild>, items: seq<Label>)
  {
    && |items| == |cs|
    && (forall c :: c in cs ==> Item(WrapWith(fixed, c)) in items)
    && (forall i :: 0 <= i < |items| ==> exists c :: c in cs && items[i] == Item(WrapWith(fixed, c)))
    && (forall i, j :: 0 <= i < j < |items| ==>
          items[i].Item? && items[j].Item? && !Less(items[j].item.displayName, items[i].item.displayName))
  }

  lemma WrappedDelivers(fixed: bool, cs: seq<NodeChild>, items: seq<Label>)
    requires items == Wrapped(fixed, SortByName(cs))
    ensures DeliversAll(fixed, cs, items)
  {
    WrappedPermutation(fixed, cs, SortByName(cs), items);
    WrappedSorted(fixed, SortByName(cs), items);
  }

  /** Wrapping a rearrangement of the children delivers one item per child. */
  lemma WrappedPermutation(fixed: bool, cs: seq<NodeChild>, sorted: seq<NodeChild>, items: seq<Label>)
    requires multiset(sorted) == multiset(cs) && items == Wrapped(fixed, sorted)
    ensures |items| == |cs|
      && (forall c :: c in cs ==> Item(WrapWith(fixed, c)) in items)
      && (forall i :: 0 <= i < |items| ==> exists c :: c in cs && items[i] == Item(WrapWith(fixed, c)))
  {
    assert |sorted| == |cs| by {
      assert |multiset(sorted)| == |multiset(cs)|;
    }
    forall c | c in cs
      ensures Item(WrapWith(fixed, c)) in items
    {
      assert c in multiset(sorted);
      var k :| 0 <= k < |sorted| && sorted[k] == c;
      assert items[k] == Item(WrapWith(fixed, c));
    }
    forall i | 0 <= i < |items|
      ensures exists c :: c in cs && items[i] == Item(WrapWith(fixed, c))
    {
      assert sorted[i] in multiset(cs);
      assert items[i] == Item(WrapWith(fixed, sorted[i]));
    }
  }

  /** Wrapping keeps the display names, so sorted children give items in name order. */
  lemma WrappedSorted(fixed: bool, sorted: seq<NodeChild>, items: seq<Label>)
    requires Sorted(sorted) && items == Wrapped(fixed, sorted)
    ensures forall i, j :: 0 <= i < j < |items| ==>
      items[i].Item? && items[j].Item? && !Less(items[j].item.displayName, items[i].item.displayName)
  {
    forall i, j | 0 <= i < j < |items|
      ensures !Less(items[j].item.displayName, items[i].item.displayName)
    {
      assert items[i].item.displayName == sorted[i].displayName;
      assert items[j].item.displayName == sorted[j].displayName;
    }
  }

  /** As written, a load delivers no item whose row can show a value. */
  lemma LoadedRowsShowNoValue(session: Model.Session, browse: Model.BrowseOutcome, k: int)
    requires session == Model.Connected
    requires 0 <= k < |LoadChildren(session, browse).items|
    ensures var it := LoadChildren(session, browse).items[k].item;
      |Name(it)| == |it.arrow| + 1
  {
  }

  // ---------------------------------------------------------------------------
  // The root the view installs
  // ---------------------------------------------------------------------------

  const RootName: string := "RootFolder"

  /** Id of the root node in the arena `populateTree` builds. */
  const RootId: NodeId := 0

  /** `{name: "RootFolder", nodeId, children: loader}`: no `expanded` key, so collapsed. */
  const RootArena: Arena := map[RootId := Node(RootLabel(RootName), false, Unloaded)]

  /**
    `populateTree`: the tree shows the single collapsed root row, selected, whatever
    it showed before.
  */
  function PopulateTree(t: Tree): (e: Effect)
    requires t.style == CurrentGlyphs
    requires |t.rows| > 0 ==> t.selected < |t.rows|
    ensures e.Redrawn?
    ensures e.tree.arena == RootArena && e.tree.root == RootId
    ensures e.tree.rows == [Row(RootId, 0, " ", true, [Plain(" └"), Plain("►"), Plain(RootName)])]
    ensures e.tree.selected == 0
  {
    var content := Render(CurrentGlyphs, RootArena[RootId], " ", true);
    assert content[2..] == [Plain(RootName)];
    assert content == [content[0], content[1]] + content[2..];
    assert content[0] == Plain(" └") by {
      assert " " + [Branch(true)] == " └";
    }
    assert content[1] == Plain("►");
    assert content == [Plain(" └"), Plain("►"), Plain(RootName)];
    assert Flat([Plain(RootName)]) == RootName;
    assert !Opens(RootArena, RootId);
    assert Walk(CurrentGlyphs, RootArena, RootId) == Ok([RootRow(CurrentGlyphs, RootArena, RootId)]);
    SetData(t, RootArena, 1, RootId)
  }

  // ---------------------------------------------------------------------------
  // The attribute pane
  // ---------------------------------------------------------------------------

  /** A row of the attribute list: the attribute column and the text column. */
  datatype AttributeRow = AttributeRow(attribute: string, text: string)

  /** The attribute column of the lines after the first of a multi-line text. */
  const Continuation: string := "   |    "

  /**
    `append_text`: a text of k lines becomes k rows; the first carries the attribute
    name, the others the continuation marker.
  */
  function AppendText(prefix: string, s: string, attr: seq<AttributeRow>): (r: seq<AttributeRow>)
    ensures |r| == |attr| + Occurrences(s, '\n') + 1
    ensures r[..|attr|] == attr
    ensures r[|attr|].attribute == prefix
    ensures forall j :: |attr| < j < |r| ==> r[j].attribute == Continuation
    ensures forall j :: |attr| <= j < |r| ==> '\n' !in r[j].text
  {
    var a := Split(s, '\n');
    if |a| == 1 then
      attr + [AttributeRow(prefix, s)]
    else
      attr + [AttributeRow(prefix, a[0])] + seq(|a| - 1, j requires 0 <= j < |a| - 1 => AttributeRow(Continuation, a[j + 1]))
  }

  /** The texts of the appended rows, joined with newlines, give the original text back. */
  lemma AppendTextRoundTrip(prefix: string, s: string, attr: seq<AttributeRow>)
    ensures var r := AppendText(prefix, s, attr);
      Join(seq(|r| - |attr|, j requires 0 <= j < |r| - |attr| => r[|attr| + j].text), '\n') == s
  {
    var r := AppendText(prefix, s, attr);
    var a := Split(s, '\n');
    var texts := seq(|r| - |attr|, j requires 0 <= j < |r| - |attr| => r[|attr| + j].text);
    if |a| == 1 {
      assert texts == [s];
    } else {
      assert texts == a;
    }
  }

  /** The rows one attribute contributes on its own. */
  function Block(a: AttributeRow): seq<AttributeRow>
  {
    AppendText(a.attribute, a.text, [])
  }

  /** `append_text` only pushes: it leaves the rows so far and adds the attribute's block. */
  lemma AppendTextExtends(prefix: string, s: string, attr: seq<AttributeRow>)
    ensures AppendText(prefix, s, attr) == attr + AppendText(prefix, s, [])
  {
    var a := Split(s, '\n');
    if |a| == 1 {
      assert [] + [AttributeRow(prefix, s)] == [AttributeRow(prefix, s)];
    } else {
      var tail := seq(|a| - 1, j requires 0 <= j < |a| - 1 => AttributeRow(Continuation, a[j + 1]));
      assert [] + [AttributeRow(prefix, a[0])] + tail == [AttributeRow(prefix, a[0])] + tail;
      assert attr + [AttributeRow(prefix, a[0])] + tail == attr + ([AttributeRow(prefix, a[0])] + tail);
    }
  }

  /** The attributes' blocks laid end to end, first attribute first. */
  function Blocks(attributes: seq<AttributeRow>): seq<AttributeRow>
  {
    if |attributes| == 0 then [] else Block(attributes[0]) + Blocks(attributes[1..])
  }

  lemma {:induction false} BlocksSnoc(xs: seq<AttributeRow>, x: AttributeRow)
    ensures Blocks(xs + [x]) == Blocks(xs) + Block(x)
  {
    if |xs| == 0 {
      assert xs + [x] == [x];
      assert [x][1..] == [];
    } else {
      assert (xs + [x])[1..] == xs[1..] + [x];
      BlocksSnoc(xs[1..], x);
    }
  }

  lemma {:induction false} BlocksAppend(xs: seq<AttributeRow>, ys: seq<AttributeRow>)
    ensures Blocks(xs + ys) == Blocks(xs) + Blocks(ys)
  {
    if |xs| == 0 {
      assert xs + ys == ys;
    } else {
      assert (xs + ys)[1..] == xs[1..] + ys;
      BlocksAppend(xs[1..], ys);
    }
  }

  /** The loop over the attributes: each `append_text` call adds that attribute's block. */
  function AppendAll(attributes: seq<AttributeRow>): (r: seq<AttributeRow>)
    ensures r == Blocks(attributes)
    decreases |attributes|
  {
    if |attributes| == 0 then []
    else
      var front := attributes[..|attributes| - 1];
      var last := attributes[|attributes| - 1];
      AppendAllStep(front, last, AppendAll(front));
      assert front + [last] == attributes;
      AppendText(last.attribute, last.text, AppendAll(front))
  }

  /** One more `append_text` call adds the next attribute's block. */
  lemma AppendAllStep(front: seq<AttributeRow>, last: AttributeRow, r: seq<AttributeRow>)
    requires r == Blocks(front)
    ensures AppendText(last.attribute, last.text, r) == Blocks(front + [last])
  {
    AppendTextExtends(last.attribute, last.text, r);
    BlocksSnoc(front, last);
  }

  /**
    The rows for all attributes read, in order; the pane is left as it was (`None`)
    when nothing was read.
  */
  function AttributeRows(attributes: seq<AttributeRow>): (r: Option<seq<AttributeRow>>)
    ensures r.None? <==> |attributes| == 0
    ensures r.Some? ==> r.value == Blocks(attributes)
  {
    if |attributes| == 0 then None else Some(AppendAll(attributes))
  }

  /**
    Every attribute gets its own block, after the blocks of the attributes before it:
    the block opens with the attribute's name and its texts joined give the
    attribute's text back.
  */
  lemma AttributeShownInPlace(attributes: seq<AttributeRow>, k: int)
    requires 0 <= k < |attributes|
    ensures var rows := AttributeRows(attributes).value;
      var off := |Blocks(attributes[..k])|;
      var b := Block(attributes[k]);
      && off + |b| <= |rows| && rows[off..off + |b|] == b
      && b[0].attribute == attributes[k].attribute
      && Join(seq(|b|, j requires 0 <= j < |b| => b[j].text), '\n') == attributes[k].text
  {
    BlocksAround(attributes, k);
    Middle(Blocks(attributes[..k]), Block(attributes[k]), Blocks(attributes[k + 1..]));
    BlockRoundTrip(attributes[k]);
  }

  /** The blocks before attribute `k`, then its own, then those after it. */
  lemma BlocksAround(attributes: seq<AttributeRow>, k: int)
    requires 0 <= k < |attributes|
    ensures Blocks(attributes) == Blocks(attributes[..k]) + Block(attributes[k]) + Blocks(attributes[k + 1..])
  {
    Around(attributes, k);
    BlocksMiddle(attributes[..k], attributes[k], attributes[k + 1..]);
  }

  lemma Around<T>(s: seq<T>, k: int)
    requires 0 <= k < |s|
    ensures s == s[..k] + [s[k]] + s[k + 1..]
  {
  }

  lemma BlocksMiddle(xs: seq<AttributeRow>, x: AttributeRow, zs: seq<AttributeRow>)
    ensures Blocks(xs + [x] + zs) == Blocks(xs) + Block(x) + Blocks(zs)
  {
    BlocksAppend(xs + [x], zs);
    BlocksSnoc(xs, x);
  }

  lemma Middle<T>(xs: seq<T>, ys: seq<T>, zs: seq<T>)
    ensures |xs| + |ys| <= |xs + ys + zs| && (xs + ys + zs)[|xs|..|xs| + |ys|] == ys
  {
    assert (xs + ys + zs)[..|xs| + |ys|] == xs + ys;
  }

  /** An attribute's block opens with its name, and its texts joined give its text back. */
  lemma BlockRoundTrip(a: AttributeRow)
    ensures var b := Block(a);
      b[0].attribute == a.attribute
      && Join(seq(|b|, j requires 0 <= j < |b| => b[j].text), '\n') == a.text
  {
    var b := Block(a);
    AppendTextRoundTrip(a.attribute, a.text, []);
    assert seq(|b|, j requires 0 <= j < |b| => b[j].text)
        == seq(|b| - 0, j requires 0 <= j < |b| - 0 => b[0 + j].text);
  }

  /** `makeItems`: one line per row; the padding helper is a parameter. */
  function MakeItems(rows: seq<AttributeRow>, width: int, pad: (string, int, string) -> string): (r: seq<string>)
    ensures |r| == |rows|
    ensures forall k :: 0 <= k < |rows| ==>
      r[k] == pad(rows[k].attribute, 25, ".") + ": " + pad(rows[k].text, width, " ")
  {
    seq(|rows|, k requires 0 <= k < |rows| => pad(rows[k].attribute, 25, ".") + ": " + pad(rows[k].text, width, " "))
  }

  /** `_onNodeChanged`: the pane refreshes exactly when the changed node is the one it shows. */
  function OnNodeChanged(shown: Option<string>, changed: string): (refresh: bool)
    ensures refresh <==> shown == Some(changed)
  {
    shown.Some? && shown.value == changed
  }
}
