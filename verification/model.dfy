/**
  The pure steps of the OPC UA data model: choosing the user identity, the arrow and
  class mark shown in front of a browsed child, assembling the children of a node
  from the three browse results, and removing an entry from the monitored-item list.
  The session and its browse service are inputs: the model receives what they returned.
*/
module Model {
  import opened Base
  import opened Text
  import opened TreeItems

  // ---------------------------------------------------------------------------
  // User identity
  // ---------------------------------------------------------------------------

  /** The command-line options the identity is chosen from; `None` is an absent option. */
  datatype Argv = Argv(
    userName: Option<string>,
    password: Option<string>,
    userCertificate: Option<string>,
    userCertificatePrivateKey: Option<string>)

  /** JavaScript truthiness of an optional string option. */
  predicate Given(o: Option<string>)
  {
    o.Some? && o.value != ""
  }

  datatype Identity =
    | Anonymous
    | UserName(userName: string, password: string)
    | Certificate(certificateData: string, privateKey: string)

  /** The private key the certificate identity carries: a fixed placeholder. */
  const PlaceholderKey: string := "todo"

  function MakeUserIdentity(argv: Argv): (id: Identity)
    ensures id.UserName? <==> Given(argv.userName) && Given(argv.password)
    ensures id.UserName? ==> id == UserName(argv.userName.value, argv.password.value)
    ensures id.Certificate? <==>
      !(Given(argv.userName) && Given(argv.password))
      && Given(argv.userCertificate) && Given(argv.userCertificatePrivateKey)
    ensures id.Certificate? ==> id == Certificate(argv.userCertificate.value, PlaceholderKey)
    ensures id.Anonymous? <==>
      !(Given(argv.userName) && Given(argv.password))
      && !(Given(argv.userCertificate) && Given(argv.userCertificatePrivateKey))
  {
    if Given(argv.userName) && Given(argv.password) then
      UserName(argv.userName.value, argv.password.value)
    else if Given(argv.userCertificate) && Given(argv.userCertificatePrivateKey) then
      Certificate(argv.userCertificate.value, PlaceholderKey)
    else
      Anonymous
  }

  /**
    The private key option only switches the certificate identity on: any two given
    keys select the same identity.
  */
  lemma PrivateKeyOnlyEnables(argv: Argv, k1: string, k2: string)
    requires k1 != "" && k2 != ""
    ensures MakeUserIdentity(argv.(userCertificatePrivateKey := Some(k1)))
         == MakeUserIdentity(argv.(userCertificatePrivateKey := Some(k2)))
  {
  }

  // ---------------------------------------------------------------------------
  // Arrow of a reference and mark of a node class
  // ---------------------------------------------------------------------------

  /** `resolveNodeId(<name>).toString()` for the four standard reference types. */
  const OrganizesId: string := "ns=0;i=35"
  const HasComponentId: string := "ns=0;i=47"
  const HasPropertyId: string := "ns=0;i=46"
  const HasSubtypeId: string := "ns=0;i=45"

  /** Type definition of a folder (FolderType). */
  const FolderTypeId: string := "ns=0;i=61"

  const OrganizesArrow: string := "─o──"
  const HasComponentArrow: string := "──┼"
  const HasPropertyArrow: string := "──╫"
  const HasSubtypeArrow: string := "───▷"
  const OtherArrow: string := "-->"

  predicate KnownReference(referenceTypeId: string)
  {
    referenceTypeId in {OrganizesId, HasComponentId, HasPropertyId, HasSubtypeId}
  }

  function ReferenceToSymbol(referenceTypeId: string): (r: string)
    ensures r == OtherArrow <==> !KnownReference(referenceTypeId)
  {
    if referenceTypeId == OrganizesId then OrganizesArrow
    else if referenceTypeId == HasComponentId then HasComponentArrow
    else if referenceTypeId == HasPropertyId then HasPropertyArrow
    else if referenceTypeId == HasSubtypeId then HasSubtypeArrow
    else OtherArrow
  }

  /** Reads a known reference type back from its arrow. */
  function SymbolToReference(arrow: string): (r: Option<string>)
    ensures r.Some? ==> KnownReference(r.value)
    ensures r.None? <==> arrow !in {OrganizesArrow, HasComponentArrow, HasPropertyArrow, HasSubtypeArrow}
  {
    if arrow == OrganizesArrow then Some(OrganizesId)
    else if arrow == HasComponentArrow then Some(HasComponentId)
    else if arrow == HasPropertyArrow then Some(HasPropertyId)
    else if arrow == HasSubtypeArrow then Some(HasSubtypeId)
    else None
  }

  /** The arrow names the reference type: distinct known types get distinct arrows. */
  lemma ReferenceSymbolRoundTrip(referenceTypeId: string)
    ensures KnownReference(referenceTypeId) ==>
      SymbolToReference(ReferenceToSymbol(referenceTypeId)) == Some(referenceTypeId)
    ensures !KnownReference(referenceTypeId) ==>
      SymbolToReference(ReferenceToSymbol(referenceTypeId)) == None
  {
  }

  /** What `symbol` returns: a pair of marks (collapsed, expanded), or the one-blank string. */
  datatype Mark = Pair(first: Span, second: Span) | Blank

  /** `symbol(ref)[0]`: the first mark, or the blank itself when `symbol` returned a string. */
  function FirstMark(m: Mark): Span
  {
    match m
    case Pair(f, _) => f
    case Blank => Plain(" ")
  }

  predicate KnownClass(nodeClass: int)
  {
    nodeClass in {ObjectClass, VariableClass, MethodClass, ObjectTypeClass,
                  VariableTypeClass, ReferenceTypeClass, DataTypeClass, ViewClass}
  }

  function Symbol(typeDefinition: string, nodeClass: int): (m: Mark)
    ensures typeDefinition == FolderTypeId ==> m == Pair(Styled(Yellow, "[F]"), Styled(Yellow, "[F]"))
    ensures m.Blank? <==> typeDefinition != FolderTypeId && !KnownClass(nodeClass)
  {
    if typeDefinition == FolderTypeId then Pair(Styled(Yellow, "[F]"), Styled(Yellow, "[F]"))
    else if nodeClass == ObjectClass then Pair(Styled(CyanBright, "[O]"), Styled(CyanBright, "[O]"))
    else if nodeClass == VariableClass then Pair(Styled(GreenBright, "[V]"), Styled(GreenBright, "[V]"))
    else if nodeClass == MethodClass then Pair(Styled(Magenta, "[M]"), Styled(Magenta, "[M]"))
    else if nodeClass == ObjectTypeClass then Pair(Styled(BgCyanBright, "[O]"), Styled(Cyan, "[OT]"))
    else if nodeClass == VariableTypeClass then Pair(Styled(BgGreenBright, "[V]"), Styled(Yellow, "Ⓥ"))
    else if nodeClass == ReferenceTypeClass then Pair(Styled(BgWhiteBrightBlack, "[R]"), Styled(YellowBright, "➾"))
    else if nodeClass == DataTypeClass then Pair(Styled(BgBlueBright, "[D]"), Styled(BgBlueBright, "Ⓓ"))
    else if nodeClass == ViewClass then Pair(Styled(MagentaBright, "[V]"), Styled(MagentaBright, "Ⓓ"))
    else Blank
  }

  /**
    Outside folders the first mark tells the node class apart: two classes that show
    the same first mark are the same class, or both unknown.
  */
  lemma FirstMarkNamesClass(typeDefinition: string, c1: int, c2: int)
    requires typeDefinition != FolderTypeId
    requires FirstMark(Symbol(typeDefinition, c1)) == FirstMark(Symbol(typeDefinition, c2))
    ensures c1 == c2 || (!KnownClass(c1) && !KnownClass(c2))
  {
  }

  // ---------------------------------------------------------------------------
  // Children of a node from the browse results
  // ---------------------------------------------------------------------------

  /** The fields of a `ReferenceDescription` the assembly reads. */
  datatype Reference = Reference(
    referenceTypeId: string,
    typeDefinition: string,
    nodeClass: int,
    displayNameText: Option<string>,
    browseName: string,
    nodeId: string)

  datatype NodeChild = NodeChild(arrow: Text, displayName: string, nodeId: string, nodeClass: int)

  /** `ref.displayName.text || ref.browseName.toString()`. */
  function DisplayNameOf(ref: Reference): (d: string)
    ensures Given(ref.displayNameText) ==> d == ref.displayNameText.value
    ensures !Given(ref.displayNameText) ==> d == ref.browseName
  {
    if Given(ref.displayNameText) then ref.displayNameText.value else ref.browseName
  }

  /**
    The child a reference contributes: its arrow reads back as the reference type, a
    folder shows the folder mark, and the name, id and class are the reference's own.
  */
  function ChildOf(ref: Reference): (c: NodeChild)
    ensures |c.arrow| == 2 && c.arrow[0].Plain?
    ensures SymbolToReference(c.arrow[0].s) ==
      (if KnownReference(ref.referenceTypeId) then Some(ref.referenceTypeId) else None)
    ensures ref.typeDefinition == FolderTypeId ==> c.arrow[1] == Styled(Yellow, "[F]")
    ensures c.arrow[1] == Plain(" ") <==> ref.typeDefinition != FolderTypeId && !KnownClass(ref.nodeClass)
    ensures c.displayName == DisplayNameOf(ref) && c.nodeId == ref.nodeId && c.nodeClass == ref.nodeClass
  {
    ReferenceSymbolRoundTrip(ref.referenceTypeId);
    NodeChild(
      [Plain(ReferenceToSymbol(ref.referenceTypeId)), FirstMark(Symbol(ref.typeDefinition, ref.nodeClass))],
      DisplayNameOf(ref), ref.nodeId, ref.nodeClass)
  }

  /**
    Outside folders a child's arrow identifies its reference type and its node class:
    two children with the same arrow have the same known reference type (or both an
    unknown one) and the same known class (or both an unknown one).
  */
  lemma ChildArrowIdentifies(r1: Reference, r2: Reference)
    requires r1.typeDefinition != FolderTypeId && r2.typeDefinition != FolderTypeId
    requires ChildOf(r1).arrow == ChildOf(r2).arrow
    ensures r1.referenceTypeId == r2.referenceTypeId
      || (!KnownReference(r1.referenceTypeId) && !KnownReference(r2.referenceTypeId))
    ensures r1.nodeClass == r2.nodeClass || (!KnownClass(r1.nodeClass) && !KnownClass(r2.nodeClass))
  {
    assert ChildOf(r1).arrow[0] == ChildOf(r2).arrow[0];
    assert ChildOf(r1).arrow[1] == ChildOf(r2).arrow[1];
    if Symbol(r1.typeDefinition, r1.nodeClass).Blank? || Symbol(r2.typeDefinition, r2.nodeClass).Blank? {
    } else {
      FirstMarkNamesClass(r1.typeDefinition, r1.nodeClass, r2.nodeClass);
    }
  }

  /** One browse result; `references` may be missing. */
  datatype BrowseResult = BrowseResult(references: Option<seq<Reference>>)

  /** What the browse call produced: it threw, or it returned one result per request. */
  datatype BrowseOutcome = BrowseThrew | Browsed(results: seq<BrowseResult>)

  datatype Session = NoSession | Reconnecting | Connected

  const NoSessionMessage: string := "No Session yet"
  const ReconnectingMessage: string := "Session is not available (reconnecting)"

  /** The references a result contributes: none when the field is missing. */
  function Refs(b: BrowseResult): seq<Reference>
  {
    b.references.GetOr([])
  }

  /** The children a run of references contributes, in server order. */
  function Children(refs: seq<Reference>): (cs: seq<NodeChild>)
    ensures |cs| == |refs|
    ensures forall k :: 0 <= k < |cs| ==> cs[k] == ChildOf(refs[k])
  {
    seq(|refs|, k requires 0 <= k < |refs| => ChildOf(refs[k]))
  }

  lemma ChildrenAppend(xs: seq<Reference>, ys: seq<Reference>)
    ensures Children(xs + ys) == Children(xs) + Children(ys)
  {
  }

  /** The references of the three requests, in request order. */
  function AllRefs(results: seq<BrowseResult>): seq<Reference>
    requires |results| >= 3
  {
    Refs(results[0]) + Refs(results[1]) + Refs(results[2])
  }

  /**
    `Model.expand_opcua_node`: the three requests are Organizes, Aggregates and
    HasSubtype. A missing session or a reconnecting one throws. Anything thrown from
    the browse call or while reading its results (fewer results than requests) is
    caught and yields no children.
  */
  function ExpandNode(session: Session, browse: BrowseOutcome): (r: Result<seq<NodeChild>, string>)
    ensures session == NoSession <==> r == Err(NoSessionMessage)
    ensures session == Reconnecting <==> r == Err(ReconnectingMessage)
    ensures session == Connected <==> r.Ok?
    ensures session == Connected && (browse.BrowseThrew? || |browse.results| < 3) ==> r == Ok([])
    ensures r.Ok? && browse.Browsed? && |browse.results| >= 3 ==>
      |r.value| == |AllRefs(browse.results)|
      && forall k :: 0 <= k < |r.value| ==> r.value[k] == ChildOf(AllRefs(browse.results)[k])
  {
    match session
    case NoSession => Err(NoSessionMessage)
    case Reconnecting => Err(ReconnectingMessage)
    case Connected =>
      match browse
      case BrowseThrew => Ok([])
      case Browsed(results) =>
        if |results| < 3 then Ok([])
        else
          ChildrenAppend(Refs(results[0]), Refs(results[1]));
          ChildrenAppend(Refs(results[0]) + Refs(results[1]), Refs(results[2]));
          Ok(Children(Refs(results[0])) + Children(Refs(results[1])) + Children(Refs(results[2])))
  }

  /**
    The children come grouped by request: all Organizes references, then all
    Aggregates references, then all HasSubtype references, each group in server order.
  */
  lemma ExpandGroupsByRequest(results: seq<BrowseResult>)
    requires |results| >= 3
    ensures var cs := ExpandNode(Connected, Browsed(results)).value;
      var n0, n1 := |Refs(results[0])|, |Refs(results[1])|;
      |cs| == n0 + n1 + |Refs(results[2])|
      && cs[..n0] == Children(Refs(results[0]))
      && cs[n0..n0 + n1] == Children(Refs(results[1]))
      && cs[n0 + n1..] == Children(Refs(results[2]))
  {
    var cs := ExpandNode(Connected, Browsed(results)).value;
    ChildrenAppend(Refs(results[0]), Refs(results[1]));
    ChildrenAppend(Refs(results[0]) + Refs(results[1]), Refs(results[2]));
    assert cs == Children(Refs(results[0])) + Children(Refs(results[1])) + Children(Refs(results[2]));
  }

  // ---------------------------------------------------------------------------
  // The monitored-item list
  // ---------------------------------------------------------------------------

  /** A row of the monitored-item table: browse name, node id text, last value. */
  datatype MonitoredRow = MonitoredRow(browseName: string, nodeId: string, value: string)

  /** How many rows name `nodeId`. */
  function Matches(rows: seq<MonitoredRow>, nodeId: string): nat
  {
    if |rows| == 0 then 0
    else Matches(rows[..|rows| - 1], nodeId) + (if rows[|rows| - 1].nodeId == nodeId then 1 else 0)
  }

  lemma {:induction false} MatchesAppend(xs: seq<MonitoredRow>, ys: seq<MonitoredRow>, nodeId: string)
    ensures Matches(xs + ys, nodeId) == Matches(xs, nodeId) + Matches(ys, nodeId)
    decreases |ys|
  {
    if |ys| == 0 {
      assert xs + ys == xs;
    } else {
      assert (xs + ys)[..|xs + ys| - 1] == xs + ys[..|ys| - 1];
      MatchesAppend(xs, ys[..|ys| - 1], nodeId);
    }
  }

  lemma {:induction false} NoMatches(rows: seq<MonitoredRow>, nodeId: string)
    requires forall j :: 0 <= j < |rows| ==> rows[j].nodeId != nodeId
    ensures Matches(rows, nodeId) == 0
    decreases |rows|
  {
    if |rows| > 0 {
      NoMatches(rows[..|rows| - 1], nodeId);
    }
  }

  /**
    The removal in `unmonitor_item`: scan the whole list remembering the last row whose
    node id column matches, then splice that one row out.
  */
  method RemoveMonitored(rows: seq<MonitoredRow>, nodeId: string) returns (r: seq<MonitoredRow>, index: int)
    ensures -1 <= index < |rows|
    ensures index == -1 <==> forall j :: 0 <= j < |rows| ==> rows[j].nodeId != nodeId
    ensures index >= 0 ==> rows[index].nodeId == nodeId
    ensures forall j :: index < j < |rows| ==> rows[j].nodeId != nodeId
    ensures index == -1 ==> r == rows
    ensures index >= 0 ==> r == rows[..index] + rows[index + 1..]
  {
    index := -1;
    var i := 0;
    while i < |rows|
      invariant 0 <= i <= |rows|
      invariant -1 <= index < i
      invariant index == -1 <==> forall j :: 0 <= j < i ==> rows[j].nodeId != nodeId
      invariant index >= 0 ==> rows[index].nodeId == nodeId
      invariant forall j :: index < j < i ==> rows[j].nodeId != nodeId
    {
      if rows[i].nodeId == nodeId {
        index := i;
      }
      i := i + 1;
    }
    if index > -1 {
      r := rows[..index] + rows[index + 1..];
    } else {
      r := rows;
    }
  }

  /**
    Unmonitoring drops exactly one matching row when there is one, and no row for any
    other node.
  */
  lemma RemovedOneMatch(rows: seq<MonitoredRow>, nodeId: string, index: int)
    requires 0 <= index < |rows| && rows[index].nodeId == nodeId
    ensures Matches(rows[..index] + rows[index + 1..], nodeId) + 1 == Matches(rows, nodeId)
    ensures forall other :: other != nodeId ==>
      Matches(rows[..index] + rows[index + 1..], other) == Matches(rows, other)
  {
    assert rows == rows[..index] + [rows[index]] + rows[index + 1..];
    MatchesAppend(rows[..index] + [rows[index]], rows[index + 1..], nodeId);
    MatchesAppend(rows[..index], [rows[index]], nodeId);
    MatchesAppend(rows[..index], rows[index + 1..], nodeId);
    assert [rows[index]][..0] == [];
    forall other | other != nodeId
      ensures Matches(rows[..index] + rows[index + 1..], other) == Matches(rows, other)
    {
      MatchesAppend(rows[..index] + [rows[index]], rows[index + 1..], other);
      MatchesAppend(rows[..index], [rows[index]], other);
      MatchesAppend(rows[..index], rows[index + 1..], other);
    }
  }
}
