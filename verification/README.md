# opcua-commander: the lazy address-space tree, modelled in Dafny

opcua-commander is a terminal OPC UA client. Its left pane is a lazily loaded tree
of the server's address space. The tree widget flattens a partially loaded tree of
node objects into an index-addressed list of rows, depth first. Each row carries a
prefix of branch glyphs and an expand-state glyph. The cursor stays on the same
node object whenever the tree is walked again. Expanding a node whose children are
still a loader function calls that loader, which browses the server and delivers
tree items. Collapsing only clears the `expanded` flag, so the loaded array is kept
and reused.

The model covers both copies of the program:

- The TypeScript client: the widget (`lib/widget/widget_tree.ts`), the tree items
  (`lib/widget/tree_item.ts`), and the loader, identity, reference arrows, node-class
  marks and monitored-item removal of `lib/model/model.ts`. It also covers the loader
  glue, root, attribute pane and sort of `lib/view/view.ts`, and the alarm table of
  `lib/view/alarm_box.ts`.
- The legacy single-file client: `widget_tree.js`, and the loader, `TreeItem`,
  padding helper, attribute lines, root and monitored-item table of `index.js`.

Modules, one per file:

- `Base`: `Option` and `Result`.
- `Text`: chalk-styled spans, JavaScript string `<`, and `split`/join on one character.
- `TreeItems`: both `TreeItem` records, their `name` getters, and the label of a tree node.
- `WidgetTree`: the node arena, the row renderer, `walk`/`dumpChildren`, selection
  pinning, and `setData`, `expandSelected`, the loader callback and `collapseSelected`.
- `Visibility`: a walk shows exactly the nodes reachable through opened nodes, and
  expanding, loading or collapsing keeps the cursor on its node.
- `Structure`: each row below the top has its parent row, which is the nearest row
  one level up; its prefix and last flag follow from that parent.
- `Model`: `makeUserIdentity`, `referenceToSymbol`, `symbol`, `Model.expand_opcua_node`
  and the removal in `unmonitor_item`.
- `View`: the name sort, the wrap of children into tree items, the loader,
  `populateTree`, `append_text`, `makeItems` and `_onNodeChanged`.
- `LegacyClient`: `w`, `makeItems`, the legacy `expand_opcua_node`, `populateTree` and
  `unmonitor_item`.
- `AlarmBox`: `ellipsys`, `n`, `f` and `updateAlarmBox`.

Node objects live in an arena `map<NodeId, Node>`, so `===` on nodes is equality of
identities. A child id the arena does not hold stands for a null entry of a children
array. The loader is asynchronous: `ExpandSelected` answers `Load(n)`, and
`CompleteLoad(t, n, outcome)` is the callback arriving later, on whatever state the
widget is in by then.

## Model

| member | source | states |
|---|---|---|
| `WidgetTree.Render` | lib/widget/widget_tree.ts:13-33 | A row's text is the prefix followed by the branch glyph ("└" for a last child, "├" otherwise), then the expand-state glyph, then the node's name. |
| `WidgetTree.GlyphShowsState` | lib/widget/widget_tree.ts:27-29 | Equal expand-state glyphs mean equal `expanded` flags. For expanded nodes they also mean equal has-children flags. So the glyph encodes all three states it draws. |
| `WidgetTree.DumpChildren` | lib/widget/widget_tree.ts:110-132 | The rows below a node start one level deeper and stay deeper. They never jump more than one level from row to row. They stay below depth 100, carry one prefix glyph per level, and show nodes that exist. Passing depth 100 fails the depth assertion. |
| `WidgetTree.Walk` | lib/widget/widget_tree.ts:95-139 | A named root comes first, at depth 0. A root that is not opened shows only its own row, or nothing when it has no name. Every other row is deeper than 0. Depths stay below 100, and the only failure is the depth assertion. |
| `WidgetTree.DumpRendered` | lib/widget/widget_tree.ts:118-125 | Every row below a node, at any depth, has the text the renderer makes of its own node, prefix and last flag. |
| `WidgetTree.WalkRendered` | lib/widget/widget_tree.ts:104-135 | Every row of a walk, the root's and the deeper ones, has the text the renderer makes of its node, prefix and last flag. |
| `Structure.DumpListsChildrenInOrder` | lib/widget/widget_tree.ts:118-125 | The rows one level below a node show exactly the non-null entries of its children array, each once, in array order. |
| `Structure.WalkListsRootChildren` | lib/widget/widget_tree.ts:104-135 | When the root opens, the depth-1 rows of the walk are exactly the root's non-null children, in array order. |
| `WidgetTree.PinIndex` | lib/widget/widget_tree.ts:84-91 | The selected index after a walk is the last row showing the pinned node. With no such row it is 0, the fallback of line 137. |
| `WidgetTree.SetData` | lib/widget/widget_tree.ts:169-173 | `setData` walks the new root. It redraws, leaving a valid widget, exactly when that walk succeeds, and otherwise crashes on the depth assertion. The cursor lands on the previously selected node whenever it is still shown, and on row 0 otherwise. |
| `WidgetTree.SelectedNode` | lib/widget/widget_tree.ts:174-182 | There is a selected node exactly when the list is non-empty, and it is a node of the tree. |
| `WidgetTree.ExpandSelected` | lib/widget/widget_tree.ts:142-158 | On an empty list it crashes. On an expanded node it does nothing. A collapsed node whose children are still a function always gets the loader called, and no other node does. A cached array is reused at once: only the node's `expanded` flag changes, and the widget redraws exactly when the walk of that tree succeeds. A redraw shows that walk, and the cursor stays on the previously selected node when it is still shown, else on row 0. |
| `WidgetTree.CompleteLoad` | lib/widget/widget_tree.ts:149-157 | A loader error changes nothing. Delivered items become fresh collapsed nodes and the node's children array, in order. The node is marked expanded and every other node is untouched. The widget redraws exactly when the walk of that tree succeeds. A redraw shows that walk, and the cursor stays on the previously selected node when it is still shown, else on row 0. |
| `WidgetTree.CollapseSelected` | lib/widget/widget_tree.ts:160-167 | On a collapsed node it does nothing. On an expanded node it always redraws, with only that node's `expanded` flag cleared. The redraw shows the walk of that tree, and the cursor stays on the previously selected node when it is still shown, else on row 0. The loader is never called. |
| `WidgetTree.WalkSurvivesClose` | lib/widget/widget_tree.ts:160-167 | Collapsing a node never makes a walk that succeeded fail the depth assertion. |
| `Visibility.WalkSound` | lib/widget/widget_tree.ts:104-136 | Every row shows a node reachable from the root through opened nodes, at its distance from the root. |
| `Visibility.WalkComplete` | lib/widget/widget_tree.ts:104-136 | Every node reachable through opened nodes is shown by some row, at its distance from the root. |
| `Visibility.WalkShowsExactlyVisible` | lib/widget/widget_tree.ts:104-136 | A node has a row if and only if it is reachable from the root through opened nodes. |
| `Visibility.WalkFailsIffTooDeep` | lib/widget/widget_tree.ts:24-25 | The walk fails its depth assertion if and only if some node reachable through opened nodes lies 100 or more levels below the root. |
| `Visibility.GrowKeepsCursor` | lib/widget/widget_tree.ts:95-101 | After opening or adding nodes, the re-walk keeps the cursor on the node it was on. |
| `Visibility.ExpandKeepsCursor` | lib/widget/widget_tree.ts:142-158 | Expanding from a cached array keeps the cursor on the expanded node. |
| `Visibility.LoadKeepsCursor` | lib/widget/widget_tree.ts:149-157 | When a load completes for a node that is not open, the cursor stays on its node. |
| `Visibility.CollapseKeepsCursor` | lib/widget/widget_tree.ts:160-167 | Collapsing the selected node keeps the cursor on it. |
| `Visibility.CollapseRootLeavesRootRow` | lib/widget/widget_tree.ts:134-138 | Collapsing the root leaves only the root's row, selected. |
| `Visibility.NoSecondLoad` | lib/widget/widget_tree.ts:148 | Once a load has delivered, expanding again, directly or after a collapse, never calls the loader a second time for that node. |
| `Structure.DumpLinked` | lib/widget/widget_tree.ts:118-128 | Each top row below a node is an entry of its children array, carries the node's child prefix, and is marked last exactly when it is the final entry. Every deeper row has its parent row. |
| `Structure.WalkLinked` | lib/widget/widget_tree.ts:13-20 | Every row below depth 0 has a parent row, or is a top row of a nameless root. The parent row is the nearest earlier row one level up. The parent opens, the row is an entry of the parent's children array, and the row's prefix is the parent's prefix plus the parent's separator. |
| `Structure.ClosedNodeHasNoChildRows` | lib/widget/widget_tree.ts:126-128 | The row after a node the walk does not open is never deeper than that node's row. |
| `TreeItems.NewTreeItem` | lib/widget/tree_item.ts:10-20 | Every option key given overrides its field. A missing key keeps the default: an empty arrow, name and value, and class 1 (Object). |
| `TreeItems.Name` | lib/widget/tree_item.ts:23-29 | The name is the arrow, a blank and the display name. `" = "` and the value follow exactly when the item's class is Variable. |
| `TreeItems.LegacyName` | index.js:257-263 | The legacy name is the arrow, a blank and the browse name. For a Variable it goes on with `" = "` and the value, which reads "undefined" when none was given. The second getter is the one in effect. |
| `TreeItems.ItemsAreNamed` | lib/widget/tree_item.ts:24 | Every tree item's name is non-empty, so a tree item used as the root gets row 0. |
| `Text.LessTrichotomous` | lib/view/view.ts:466 | JavaScript's `<` on strings is a strict total order. Two names neither of which precedes the other are equal. |
| `Text.LessTransitive` | lib/view/view.ts:466 | JavaScript's `<` on strings is transitive. |
| `Text.Split` | lib/view/view.ts:490 | `split` yields one more piece than there are separators. No piece contains the separator, and joining the pieces gives the string back. |
| `Text.SplitJoin` | lib/view/view.ts:490 | Splitting a join of separator-free pieces gives the pieces back. |
| `Model.MakeUserIdentity` | lib/model/model.ts:62-79 | The identity is a user name when both user name and password are given. Otherwise it is a certificate when both certificate and private key are given. Otherwise it is anonymous. The certificate identity carries the placeholder key "todo". |
| `Model.PrivateKeyOnlyEnables` | lib/model/model.ts:71-76 | The private key option only switches the certificate identity on; its content is never used. |
| `Model.ReferenceToSymbol` | lib/model/model.ts:89-107 | Organizes, HasComponent, HasProperty and HasSubtype each get their own arrow. Any other reference type gets "-->". |
| `Model.ReferenceSymbolRoundTrip` | lib/model/model.ts:93-107 | Reading the arrow back recovers a known reference type and recovers nothing for any other. |
| `Model.Symbol` | lib/model/model.ts:108-132 | A folder type definition wins over the node class. Otherwise each of the eight node classes gets its marks. Anything else gets the single blank. |
| `Model.FirstMarkNamesClass` | lib/model/model.ts:113-131 | Outside folders, the first mark tells the known node classes apart. |
| `Model.ChildOf` | lib/model/model.ts:519-524 | A child's arrow has two parts. The first reads back as the reference's type when that type is known, and as nothing otherwise. A folder shows the folder mark, and the second part is the blank exactly for a non-folder of unknown class. The name is the display name text, or the browse name when that text is empty. The id and class come from the reference. |
| `Model.ChildArrowIdentifies` | lib/model/model.ts:519-524 | Outside folders, two children with the same arrow have the same known reference type (or both an unknown one) and the same known class (or both an unknown one). |
| `Model.ExpandNode` | lib/model/model.ts:475-559 | With no session it throws "No Session yet". While reconnecting it throws "Session is not available (reconnecting)". A browse that throws, or that has fewer than three results, yields no children. Otherwise there is one child per reference, in request order. |
| `Model.ExpandGroupsByRequest` | lib/model/model.ts:512-552 | The children come grouped: the Organizes references, then Aggregates, then HasSubtype, each group in server order. |
| `Model.RemoveMonitored` | lib/model/model.ts:415-423 | The removal finds the last row naming the node, or -1 when none does, and splices exactly that row out. |
| `Model.RemovedOneMatch` | lib/model/model.ts:421-423 | The splice drops exactly one row of the node and no row of any other node. |
| `View.CompareConsistent` | lib/view/view.ts:465-467 | The comparator is antisymmetric and answers 0 exactly for equal names. |
| `View.SortByName` | lib/view/view.ts:464-467 | The sorted children are a permutation of the children, in ascending display-name order. |
| `View.SortStable` | lib/view/view.ts:464-467 | Children that share a display name keep their relative order. |
| `View.SortIsTheStableSort` | lib/view/view.ts:464-467 | Any ascending, stable arrangement of the children is exactly the sort's result. |
| `View.WrapAsWritten` | lib/view/view.ts:469 | As written, the wrap copies the arrow, name, id and `nodeClass`, but the item's `class` stays at its default, Object. |
| `View.AsWrittenVariableWithoutValue` | lib/view/view.ts:469 | A Variable child named "Temperature" is shown as its arrow and " Temperature", with no value. |
| `View.Wrap` | lib/view/view.ts:469 | The corrected wrap also makes the node class the item's class. |
| `View.WrapShowsValuesOfVariables` | lib/widget/tree_item.ts:23-29 | With the corrected wrap, a loaded child's name carries a value exactly when the child is a Variable. |
| `View.LoadChildren` | lib/view/view.ts:459-476 | The loader as written fails exactly when there is no usable session. Otherwise it delivers the sorted children, wrapped as written, so every item's class is Object. |
| `View.LoadedRowsShowNoValue` | lib/view/view.ts:469 | As written, no item a load delivers has a name that carries a value. |
| `View.LoadChildrenCorrected` | lib/view/view.ts:459-476 | The corrected loader fails in the same cases. It delivers the same items, except that each item's class is its node class. |
| `View.LoadDeliversEveryChild` | lib/view/view.ts:462-470 | For the loader as written and for the corrected one, a successful load delivers one item per child, none added or dropped, in ascending name order. |
| `View.PopulateTree` | lib/view/view.ts:451-457 | After `populateTree` the list is the single collapsed "RootFolder" row, selected, whatever it showed before. |
| `View.AppendText` | lib/view/view.ts:489-499 | A text of k lines becomes k rows. The first row carries the attribute name and the others the continuation marker. No row's text holds a newline. |
| `View.AppendTextRoundTrip` | lib/view/view.ts:489-499 | Joining the texts of the appended rows with newlines gives the original text. |
| `View.AppendTextExtends` | lib/view/view.ts:489-499 | `append_text` keeps the rows so far and adds the attribute's own block after them. |
| `View.AppendAll` | lib/view/view.ts:505-507 | The loop over the attributes yields their blocks end to end, first attribute first. |
| `View.AttributeRows` | lib/view/view.ts:501-507 | The pane is left as it was when no attribute was read. Otherwise its rows are the attributes' blocks, in order. |
| `View.AttributeShownInPlace` | lib/view/view.ts:501-507 | Each attribute's block stands after the blocks of the attributes before it. It opens with the attribute's name, and its texts joined give the attribute's text back. |
| `View.MakeItems` | lib/view/view.ts:45-49 | Each line is the key padded to 25 with dots, then ": ", then the value padded to the given width. |
| `View.OnNodeChanged` | lib/view/view.ts:478-483 | The attribute pane refreshes exactly when the changed node is the one it shows. |
| `LegacyClient.W` | index.js:401-405 | `w(s, l, c)` is `s` followed by 24 fill characters, cut to `l` characters. The fill character is the first character of `c`, or a blank. |
| `LegacyClient.WPadsOrCuts` | index.js:401-405 | Up to 24 fill characters are added and longer strings are cut. A width more than 24 beyond the string's length is not reached. |
| `LegacyClient.MakeItems` | index.js:406-410 | Each line is the key padded to 25 with dots, then ": ", then the value padded to the list width minus 28. |
| `LegacyClient.KeyColumnAligned` | index.js:406-410 | For every non-empty key, ": " stands at columns 25 and 26. |
| `LegacyClient.SameItemsAsCurrentView` | lib/view/view.ts:45-49 | Given the legacy padding helper, the current `makeItems` builds the same lines as the legacy one. |
| `LegacyClient.ExpandNode` | index.js:266-339 | Without a session the callback gets "No Connection" and no list. A browse error is passed on with an empty list. A missing result or reference list throws inside the browse callback. Otherwise Organizes, HasProperty and HasComponent references become items in that order, each with its arrow. |
| `LegacyClient.ArrowsDistinct` | index.js:306-329 | The three legacy arrows differ, and none is a prefix of another. |
| `LegacyClient.TreeOutcome` | widget_tree.js:146-154 | A callback error leaves the node as it was, and a list is installed item by item. With neither, the widget's array assertion throws. |
| `LegacyClient.LegacyChildName` | index.js:305-311 | A legacy child shows a value exactly when its reference reported the Variable class. |
| `LegacyClient.PopulateTree` | index.js:553-559 | The legacy root shows as the single collapsed row with the legacy glyph "► ", selected. |
| `LegacyClient.Shown` | index.js:229-236 | The table shows its rows, or the one-blank placeholder exactly when it is empty. |
| `LegacyClient.Unmonitor` | index.js:210-240 | The index found is the last row naming the node, or -1 when none does. Exactly that row is spliced out, the other rows keeping their order, and nothing changes without a match. The table is redrawn, with the placeholder once it is empty. |
| `AlarmBox.Ellipsys` | lib/view/alarm_box.ts:6-10 | Falsy values show as nothing; any other value shows as its text. |
| `AlarmBox.N` | lib/view/alarm_box.ts:11-16 | Null and undefined show as nothing; any other value shows as its text. |
| `AlarmBox.EllipsysAgainstN` | lib/view/alarm_box.ts:6-16 | The two helpers differ exactly on `false` and `0`. |
| `AlarmBox.DigitsRoundTrip` | lib/view/alarm_box.ts:34 | A severity's decimal text reads back as the number. |
| `AlarmBox.F` | lib/view/alarm_box.ts:17-19 | A flag shows as "X" when set and "_" otherwise. |
| `AlarmBox.StateColumn` | lib/view/alarm_box.ts:35-38 | The state column has four characters. A disabled alarm shows "_---". |
| `AlarmBox.StateColumnRoundTrip` | lib/view/alarm_box.ts:35-38 | The state column shows exactly the active, acked and confirmed flags of an enabled alarm, and nothing of a disabled one. |
| `AlarmBox.AlarmRow` | lib/view/alarm_box.ts:28-41 | A row is event type, condition, message, severity with the last severity, state and comment. The message, severity and comment read "-" when the alarm is disabled. |
| `AlarmBox.AlarmTable` | lib/view/alarm_box.ts:20-45 | The table is the header row, then one row per alarm in the list's order. |
| `AlarmBox.AlarmRowsAreRegular` | lib/view/alarm_box.ts:28-41 | Every row after the header has six columns and a four-character state. |

## Left out

- Drawing is left out. The blessed list, key bindings, `screen.render` and the scroll bar are not modelled; the list is the `rows` sequence and the cursor is `selected`.
- OPC UA I/O is left out. The session, the browse call, attribute reads, subscriptions and monitored items are inputs: `Session`, `BrowseOutcome`, `LegacyBrowse`, the attribute rows.
- Concurrency is left out. The loader's asynchrony is a later `CompleteLoad` call; the ordering of concurrent callbacks and the monitored-item `terminate` callback are not modelled.
- The debounce timer of the tree's selection handler, the console override and the statistics counters are not modelled.
- Value formatting of data values (`toString1`, `toFixed`) is not modelled.
- `lib/index.ts` (argument parsing and start-up), `lib/make_certificate.ts` and `lib/utils/extract_browse_path.ts` are not part of this model.
- `lib/utils/utils.ts`, which holds the current `w`, is not part of this model. `View.MakeItems` takes the padding function as a parameter, and `LegacyClient.SameItemsAsCurrentView` instantiates it with the legacy `w`.
- The widget stores `prefix`, `depth` and `isLastChild` on the node objects. The model computes them functionally. The two agree on trees where each node object appears once.
- WidgetTree.Walk: under a nameless root, which gets no row, the children's prefix would read "undefined" plus a separator; the model gives them the prefix of a named root's children.
- WidgetTree.SetData: a walk that fails the depth assertion leaves a partly filled list in the source; the model reports `Crashed(DepthAssertion)` and no list.
- A node object without a `children` field is not modelled: every node the program builds has a loader or an array.
- Text.LessTrichotomous: `Text.Less` compares characters by code point, while JavaScript compares UTF-16 code units; the two agree outside the astral planes.
- The legacy loader reads `ref.class`, a field the browse result may not carry. `LegacyReference.refClass` is that field, possibly absent.
- Alarm field values are integers, booleans, strings, null or undefined. Floating-point severities are not modelled, and the state flags are read by JavaScript truthiness.
- There is no "expanding" state guarding against a second fetch: a second expand before the callback arrives calls the loader again.
- An expanded node whose children are still a loader shows the green "▼", not a collapsed glyph: the glyph test reads `children.length`, which for a function is its parameter count, 2.
- The root that `populateTree` installs has no `expanded` key, so it starts collapsed and shows "►".
- The root gets row 0 only when it has a name.
- The "cannot expand" error text is not kept in `LoadOutcome`: the widget returns on any error without reading it.
- WidgetTree.Select stands in for the blessed list's cursor movement; blessed itself is not modelled.

## Findings

| source | as written | input that shows it | evidently intended | confidence | as-written member | corrected member |
|---|---|---|---|---|---|---|
| lib/view/view.ts:469 with lib/widget/tree_item.ts:12,25 | The loader wraps each child with `new TreeItem({...c, children})`. The child carries `nodeClass`, but the item's `name` getter tests `class`, which stays at its default 1 (Object). No loaded Variable ever shows its value. `View.LoadChildren` models this loader; `View.LoadChildrenCorrected` is the fixed one. | A Variable child named "Temperature": its name is the arrow and " Temperature", with no " = " part. | The node class reaches the item's `class`, so Variables show " = " and their value. | not executed | `View.AsWrittenVariableWithoutValue` | `View.WrapShowsValuesOfVariables` |
