/**
  The records the address-space tree shows: the current `TreeItem` class, the legacy
  prototype-based `TreeItem` of the single-file client, and the label a tree node
  carries (its `name`).
*/
module TreeItems {
  import opened Base
  import opened Text

  /** Values of the OPC UA NodeClass enumeration (OPC 10000-3) that the program tells apart. */
  const ObjectClass: int := 1
  const VariableClass: int := 2
  const MethodClass: int := 4
  const ObjectTypeClass: int := 8
  const VariableTypeClass: int := 16
  const ReferenceTypeClass: int := 32
  const DataTypeClass: int := 64
  const ViewClass: int := 128

  // ---------------------------------------------------------------------------
  // Current TreeItem
  // ---------------------------------------------------------------------------

  /**
    The option object handed to the constructor. Only the keys the item can hold are
    listed; the `children` key becomes the tree node's children instead (see WidgetTree).
  */
  datatype ItemOptions = ItemOptions(
    arrow: Option<Text>,
    displayName: Option<string>,
    itemClass: Option<int>,
    valueAsString: Option<string>,
    nodeId: Option<string>,
    nodeClass: Option<int>)

  /**
    A constructed item: the four declared fields with their defaults, plus the keys
    that only exist when the options carried them.
  */
  datatype TreeItem = TreeItem(
    arrow: Text,
    displayName: string,
    itemClass: int,
    valueAsString: string,
    nodeId: Option<string>,
    nodeClass: Option<int>)

  /** The item with no options: the field initialisers. */
  const DefaultItem := TreeItem([], "", ObjectClass, "", None, None)

  /** The constructor: every option key present overrides the field default. */
  function NewTreeItem(o: ItemOptions): (t: TreeItem)
    ensures o.arrow.Some? ==> t.arrow == o.arrow.value
    ensures o.arrow.None? ==> t.arrow == DefaultItem.arrow
    ensures o.displayName.Some? ==> t.displayName == o.displayName.value
    ensures o.displayName.None? ==> t.displayName == DefaultItem.displayName
    ensures o.itemClass.Some? ==> t.itemClass == o.itemClass.value
    ensures o.itemClass.None? ==> t.itemClass == DefaultItem.itemClass
    ensures o.valueAsString.Some? ==> t.valueAsString == o.valueAsString.value
    ensures o.valueAsString.None? ==> t.valueAsString == DefaultItem.valueAsString
    ensures t.nodeId == o.nodeId && t.nodeClass == o.nodeClass
  {
    TreeItem(
      o.arrow.GetOr(DefaultItem.arrow),
      o.displayName.GetOr(DefaultItem.displayName),
      o.itemClass.GetOr(DefaultItem.itemClass),
      o.valueAsString.GetOr(DefaultItem.valueAsString),
      o.nodeId,
      o.nodeClass)
  }

  /**
    The `name` getter: arrow, a blank and the display name, and for a Variable the
    current value after " = ".
  */
  function Name(t: TreeItem): (r: Text)
    ensures |r| >= |t.arrow| + 1
    ensures r[..|t.arrow|] == t.arrow
    ensures r[|t.arrow|] == Plain(" " + t.displayName)
    ensures t.itemClass == VariableClass <==> |r| == |t.arrow| + 2
    ensures t.itemClass == VariableClass ==> r[|r| - 1] == Plain(" = " + t.valueAsString)
  {
    t.arrow + [Plain(" " + t.displayName)]
      + (if t.itemClass == VariableClass then [Plain(" = " + t.valueAsString)] else [])
  }

  // ---------------------------------------------------------------------------
  // Legacy TreeItem (the single-file client)
  // ---------------------------------------------------------------------------

  /**
    The legacy item copies whatever keys it is given and has no field defaults, so a
    key never given reads as `undefined`.
  */
  datatype LegacyItem = LegacyItem(
    arrow: string,
    browseName: string,
    itemClass: Option<int>,
    valueAsString: Option<string>,
    nodeId: string)

  /** How JavaScript's `+` prints a string that may be `undefined`. */
  function JsConcatText(v: Option<string>): string
  {
    v.GetOr("undefined")
  }

  /**
    The `name` getter of the legacy item. Two getters are defined on the prototype;
    the second replaces the first, so this is the only one in effect.
  */
  function LegacyName(t: LegacyItem): (r: string)
    ensures |r| >= |t.arrow| + 1 + |t.browseName|
    ensures r[..|t.arrow| + 1 + |t.browseName|] == t.arrow + " " + t.browseName
    ensures t.itemClass == Some(VariableClass) ==>
      r == t.arrow + " " + t.browseName + " = " + JsConcatText(t.valueAsString)
    ensures t.itemClass != Some(VariableClass) ==> |r| == |t.arrow| + 1 + |t.browseName|
  {
    var str := t.arrow + " " + t.browseName;
    if t.itemClass == Some(VariableClass) then str + " = " + JsConcatText(t.valueAsString) else str
  }

  // ---------------------------------------------------------------------------
  // The label of a tree node
  // ---------------------------------------------------------------------------

  /**
    What a tree node's `name` property yields: the root is a plain object literal with
    a `name` string, every other node is a tree item with a `name` getter.
  */
  datatype Label = RootLabel(name: string) | Item(item: TreeItem) | Legacy(legacy: LegacyItem)

  function LabelText(l: Label): Text
  {
    match l
    case RootLabel(n) => [Plain(n)]
    case Item(t) => Name(t)
    case Legacy(t) => [Plain(LegacyName(t))]
  }

  /** Whether `node.name` is truthy, i.e. a non-empty string. */
  predicate Named(l: Label)
  {
    Flat(LabelText(l)) != ""
  }

  /** Every tree item has a non-empty name: it always contains the blank after the arrow. */
  lemma ItemsAreNamed(l: Label)
    requires !l.RootLabel?
    ensures Named(l)
  {
    match l
    case Item(t) =>
      var r := Name(t);
      assert r == t.arrow + [r[|t.arrow|]] + r[|t.arrow| + 1..];
      FlatAppend(t.arrow + [r[|t.arrow|]], r[|t.arrow| + 1..]);
      FlatAppend(t.arrow, [r[|t.arrow|]]);
      assert Flat([r[|t.arrow|]]) == " " + t.displayName;
    case Legacy(t) =>
      assert Flat([Plain(LegacyName(t))]) == LegacyName(t);
      assert LegacyName(t)[|t.arrow|] == ' ';
  }
}
