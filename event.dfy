/**
 * Kernel events (Event.cpp): the table of event types, the registry of private
 * event types that managers create at run time, the rules by which each typed
 * constructor accepts or rejects its payload, and the one-line description of
 * an event.
 *
 * Event.h is not part of this model. The model assumes that the public types
 * are numbered 0 to 24 in the order of the name table (the build without
 * DEBUG, so EVENT_TYPE_CALLBACK is 24), that private types follow them, one per
 * slot of the private callback table, and that the number of private slots is
 * a parameter (`privateSlots`).
 */
module Event {
  import opened Wrappers
  import Decimal

  type EventType = int

  const PrepareStartup: EventType := 0
  const Startup: EventType := 1
  const PrepareShutdown: EventType := 2
  const Shutdown: EventType := 3
  const NodeContactNew: EventType := 4
  const NodeContactEnd: EventType := 5
  const NodeUpdated: EventType := 6
  const NodeDescriptionSend: EventType := 7
  const NeighborInterfaceUp: EventType := 8
  const NeighborInterfaceDown: EventType := 9
  const LocalInterfaceUp: EventType := 10
  const LocalInterfaceDown: EventType := 11
  const DataObjectNew: EventType := 12
  const DataObjectDeleted: EventType := 13
  const DataObjectForward: EventType := 14
  const DataObjectSend: EventType := 15
  const DataObjectVerified: EventType := 16
  const DataObjectReceived: EventType := 17
  const DataObjectSendSuccessful: EventType := 18
  const DataObjectSendFailure: EventType := 19
  const DataObjectIncoming: EventType := 20
  const TargetNodes: EventType := 21
  const DelegateNodes: EventType := 22
  const ResourcePolicyNew: EventType := 23
  const Callback: EventType := 24
  /** MAX_NUM_PUBLIC_EVENT_TYPES: the number of entries of the public name table. */
  const NumPublicTypes: nat := 25

  /** EVENT_TYPE(t): a public type or one of the private types. */
  predicate IsEventType(t: EventType, privateSlots: nat)
  {
    0 <= t < NumPublicTypes + privateSlots
  }

  /** EVENT_TYPE_PRIVATE(t). */
  predicate IsPrivate(t: EventType, privateSlots: nat)
  {
    NumPublicTypes <= t < NumPublicTypes + privateSlots
  }

  /** What an event refers to. Only the parts the description shows are kept. */
  datatype DataObjectRef = DataObjectRef(idStr: string, num: nat)
  datatype NodeRef = NodeRef(idStr: string)
  datatype InterfaceRef = InterfaceRef(identifierStr: string)

  /** An event: its type and its payload. `policy`, `data` and `callback`
   *  record only whether a policy, an opaque data pointer or a callback is
   *  attached. */
  datatype Event = Event(
    eventType: EventType,
    dObj: Option<DataObjectRef>,
    dObjs: seq<DataObjectRef>,
    node: Option<NodeRef>,
    nodes: seq<NodeRef>,
    iface: Option<InterfaceRef>,
    policy: bool,
    data: bool,
    callback: bool,
    hasData: bool)

  /** Why a constructor throws. */
  datatype EventError = UnknownType | PayloadRejected | NoCallback

  /** An event of type t that carries nothing. */
  function Bare(t: EventType): (e: Event)
    ensures e.eventType == t && e.dObj.None? && e.dObjs == [] && e.node.None? && e.nodes == []
    ensures e.iface.None? && !e.policy && !e.data && !e.callback && !e.hasData
  {
    Event(t, None, [], None, [], None, false, false, false, false)
  }

  // ---------------------------------------------------------------------------
  // The types each typed constructor accepts a payload for (besides private ones)

  predicate TakesDataObject(t: EventType)
  {
    t == DataObjectReceived || t == DataObjectVerified || t == DataObjectNew
    || t == DataObjectIncoming || t == DataObjectDeleted
  }

  predicate TakesInterface(t: EventType)
  {
    t == LocalInterfaceUp || t == LocalInterfaceDown || t == NeighborInterfaceUp || t == NeighborInterfaceDown
  }

  predicate TakesNode(t: EventType)
  {
    t == NodeContactNew || t == NodeContactEnd
  }

  predicate TakesPolicy(t: EventType)
  {
    t == ResourcePolicyNew
  }

  predicate TakesDataObjectAndNode(t: EventType)
  {
    t == DataObjectForward || t == DataObjectSendSuccessful || t == DataObjectSendFailure || t == DataObjectSend
  }

  predicate TakesNodeAndList(t: EventType)
  {
    t == TargetNodes || t == NodeUpdated
  }

  predicate TakesDataObjectAndList(t: EventType)
  {
    t == DataObjectSend
  }

  predicate TakesDataObjectNodeAndList(t: EventType)
  {
    t == DelegateNodes
  }

  predicate TakesDataObjectList(t: EventType)
  {
    t == DataObjectDeleted
  }

  /** The types whose opaque-data constructor accepts data anyway. */
  predicate TakesOpaqueData(t: EventType)
  {
    t == PrepareStartup || t == Startup || t == PrepareShutdown || t == Shutdown
  }

  // ---------------------------------------------------------------------------
  // Typed constructors (the build with exceptions: a rejection is an error)

  /** `Event(type, DataObjectRef)`. A DATAOBJECT_DELETED event moves its data
   *  object into the data-object list, so it looks like one built from a list. */
  function WithDataObject(t: EventType, dObj: Option<DataObjectRef>, privateSlots: nat): (r: Result<Event, EventError>)
    ensures !IsEventType(t, privateSlots) ==> r == Err(UnknownType)
    ensures IsEventType(t, privateSlots) ==>
      (r.Err? <==> dObj.Some? && !IsPrivate(t, privateSlots) && !TakesDataObject(t))
    ensures r.Ok? ==> r.value.eventType == t && r.value.hasData == dObj.Some?
    ensures r.Ok? && t == DataObjectDeleted ==>
      r.value.dObj.None? && r.value.dObjs == (if dObj.Some? then [dObj.value] else [])
    ensures r.Ok? && t != DataObjectDeleted ==> r.value.dObj == dObj && r.value.dObjs == []
  {
    if !IsEventType(t, privateSlots) then Err(UnknownType)
    else if dObj.None? || IsPrivate(t, privateSlots) || (TakesDataObject(t) && t != DataObjectDeleted) then
      Ok(Bare(t).(dObj := dObj, hasData := dObj.Some?))
    else if t == DataObjectDeleted then
      Ok(Bare(t).(dObjs := [dObj.value], hasData := true))
    else Err(PayloadRejected)
  }

  /** `Event(type, InterfaceRef)`. */
  function WithInterface(t: EventType, iface: Option<InterfaceRef>, privateSlots: nat): (r: Result<Event, EventError>)
    ensures !IsEventType(t, privateSlots) ==> r == Err(UnknownType)
    ensures IsEventType(t, privateSlots) ==>
      (r.Err? <==> iface.Some? && !IsPrivate(t, privateSlots) && !TakesInterface(t))
    ensures r.Ok? ==> r.value == Bare(t).(iface := iface, hasData := iface.Some?)
  {
    if !IsEventType(t, privateSlots) then Err(UnknownType)
    else if iface.None? || IsPrivate(t, privateSlots) || TakesInterface(t) then
      Ok(Bare(t).(iface := iface, hasData := iface.Some?))
    else Err(PayloadRejected)
  }

  /** `Event(type, NodeRef)`. */
  function WithNode(t: EventType, node: Option<NodeRef>, privateSlots: nat): (r: Result<Event, EventError>)
    ensures !IsEventType(t, privateSlots) ==> r == Err(UnknownType)
    ensures IsEventType(t, privateSlots) ==>
      (r.Err? <==> node.Some? && !IsPrivate(t, privateSlots) && !TakesNode(t))
    ensures r.Ok? ==> r.value == Bare(t).(node := node, hasData := node.Some?)
  {
    if !IsEventType(t, privateSlots) then Err(UnknownType)
    else if node.None? || IsPrivate(t, privateSlots) || TakesNode(t) then
      Ok(Bare(t).(node := node, hasData := node.Some?))
    else Err(PayloadRejected)
  }

  /** `Event(type, PolicyRef)`; `policy` says whether a policy is given. */
  function WithPolicy(t: EventType, policy: bool, privateSlots: nat): (r: Result<Event, EventError>)
    ensures !IsEventType(t, privateSlots) ==> r == Err(UnknownType)
    ensures IsEventType(t, privateSlots) ==>
      (r.Err? <==> policy && !IsPrivate(t, privateSlots) && !TakesPolicy(t))
    ensures r.Ok? ==> r.value == Bare(t).(policy := policy, hasData := policy)
  {
    if !IsEventType(t, privateSlots) then Err(UnknownType)
    else if !policy || IsPrivate(t, privateSlots) || TakesPolicy(t) then
      Ok(Bare(t).(policy := policy, hasData := policy))
    else Err(PayloadRejected)
  }

  /** `Event(type, DataObjectRef, NodeRef)`. The payload is checked only when
   *  both parts are given; a DATAOBJECT_SEND event moves its node to the front
   *  of the node list. */
  function WithDataObjectAndNode(t: EventType, dObj: Option<DataObjectRef>, node: Option<NodeRef>, privateSlots: nat)
    : (r: Result<Event, EventError>)
    ensures !IsEventType(t, privateSlots) ==> r == Err(UnknownType)
    ensures IsEventType(t, privateSlots) ==>
      (r.Err? <==> dObj.Some? && node.Some? && !IsPrivate(t, privateSlots) && !TakesDataObjectAndNode(t))
    ensures r.Ok? ==> r.value.eventType == t && r.value.dObj == dObj && r.value.hasData == (dObj.Some? && node.Some?)
    ensures r.Ok? && t == DataObjectSend && dObj.Some? && node.Some? ==>
      r.value.node.None? && r.value.nodes == [node.value]
    ensures r.Ok? && !(t == DataObjectSend && dObj.Some? && node.Some?) ==> r.value.node == node && r.value.nodes == []
  {
    var has := dObj.Some? && node.Some?;
    if !IsEventType(t, privateSlots) then Err(UnknownType)
    else if !has || IsPrivate(t, privateSlots) || (TakesDataObjectAndNode(t) && t != DataObjectSend) then
      Ok(Bare(t).(dObj := dObj, node := node, hasData := has))
    else if t == DataObjectSend then
      Ok(Bare(t).(dObj := dObj, nodes := [node.value], hasData := true))
    else Err(PayloadRejected)
  }

  /** `Event(type, NodeRef, NodeRefList)`; checked only for a node with a
   *  non-empty list. */
  function WithNodeAndList(t: EventType, node: Option<NodeRef>, nodes: seq<NodeRef>, privateSlots: nat)
    : (r: Result<Event, EventError>)
    ensures !IsEventType(t, privateSlots) ==> r == Err(UnknownType)
    ensures IsEventType(t, privateSlots) ==>
      (r.Err? <==> node.Some? && nodes != [] && !IsPrivate(t, privateSlots) && !TakesNodeAndList(t))
    ensures r.Ok? ==> r.value == Bare(t).(node := node, nodes := nodes, hasData := node.Some?)
  {
    if !IsEventType(t, privateSlots) then Err(UnknownType)
    else if node.None? || nodes == [] || IsPrivate(t, privateSlots) || TakesNodeAndList(t) then
      Ok(Bare(t).(node := node, nodes := nodes, hasData := node.Some?))
    else Err(PayloadRejected)
  }

  /** `Event(type, DataObjectRef, NodeRefList)`. */
  function WithDataObjectAndList(t: EventType, dObj: Option<DataObjectRef>, nodes: seq<NodeRef>, privateSlots: nat)
    : (r: Result<Event, EventError>)
    ensures !IsEventType(t, privateSlots) ==> r == Err(UnknownType)
    ensures IsEventType(t, privateSlots) ==>
      (r.Err? <==> dObj.Some? && nodes != [] && !IsPrivate(t, privateSlots) && !TakesDataObjectAndList(t))
    ensures r.Ok? ==> r.value == Bare(t).(dObj := dObj, nodes := nodes, hasData := dObj.Some? && nodes != [])
  {
    var has := dObj.Some? && nodes != [];
    if !IsEventType(t, privateSlots) then Err(UnknownType)
    else if !has || IsPrivate(t, privateSlots) || TakesDataObjectAndList(t) then
      Ok(Bare(t).(dObj := dObj, nodes := nodes, hasData := has))
    else Err(PayloadRejected)
  }

  /** `Event(type, DataObjectRef, NodeRef, NodeRefList)`. */
  function WithDataObjectNodeAndList(t: EventType, dObj: Option<DataObjectRef>, node: Option<NodeRef>,
                                     nodes: seq<NodeRef>, privateSlots: nat): (r: Result<Event, EventError>)
    ensures !IsEventType(t, privateSlots) ==> r == Err(UnknownType)
    ensures IsEventType(t, privateSlots) ==>
      (r.Err? <==> dObj.Some? && nodes != [] && !IsPrivate(t, privateSlots) && !TakesDataObjectNodeAndList(t))
    ensures r.Ok? ==> r.value == Bare(t).(dObj := dObj, node := node, nodes := nodes, hasData := dObj.Some? && nodes != [])
  {
    var has := dObj.Some? && nodes != [];
    if !IsEventType(t, privateSlots) then Err(UnknownType)
    else if !has || IsPrivate(t, privateSlots) || TakesDataObjectNodeAndList(t) then
      Ok(Bare(t).(dObj := dObj, node := node, nodes := nodes, hasData := has))
    else Err(PayloadRejected)
  }

  /** `Event(type, DataObjectRefList)` as written: its check tests the single
   *  data object, which this constructor never sets, so no list is rejected. */
  function WithDataObjectListAsWritten(t: EventType, dObjs: seq<DataObjectRef>, privateSlots: nat)
    : (r: Result<Event, EventError>)
    ensures r.Err? <==> !IsEventType(t, privateSlots)
  {
    var e := Bare(t).(dObjs := dObjs, hasData := |dObjs| > 0);
    if !IsEventType(t, privateSlots) then Err(UnknownType)
    else if e.dObj.Some? && !IsPrivate(t, privateSlots) && !TakesDataObjectList(t) then Err(PayloadRejected)
    else Ok(e)
  }

  /** `Event(type, DataObjectRefList)` with the check applied to the list it is
   *  given, as for every other typed constructor. */
  function WithDataObjectList(t: EventType, dObjs: seq<DataObjectRef>, privateSlots: nat)
    : (r: Result<Event, EventError>)
    ensures !IsEventType(t, privateSlots) ==> r == Err(UnknownType)
    ensures IsEventType(t, privateSlots) ==>
      (r.Err? <==> dObjs != [] && !IsPrivate(t, privateSlots) && !TakesDataObjectList(t))
    ensures r.Ok? ==> r.value == Bare(t).(dObjs := dObjs, hasData := dObjs != [])
  {
    if !IsEventType(t, privateSlots) then Err(UnknownType)
    else if dObjs == [] || IsPrivate(t, privateSlots) || TakesDataObjectList(t) then
      Ok(Bare(t).(dObjs := dObjs, hasData := dObjs != []))
    else Err(PayloadRejected)
  }

  /** `Event(type, void *data)`: opaque data is refused for every public type
   *  that some typed constructor accepts a payload for. */
  function WithData(t: EventType, data: bool, privateSlots: nat): (r: Result<Event, EventError>)
    ensures !IsEventType(t, privateSlots) ==> r == Err(UnknownType)
    ensures r.Ok? ==> r.value == Bare(t).(data := data, hasData := data)
  {
    if !IsEventType(t, privateSlots) then Err(UnknownType)
    else if !data || IsPrivate(t, privateSlots) || TakesOpaqueData(t) then Ok(Bare(t).(data := data, hasData := data))
    else if TakesDataObject(t) || TakesDataObjectAndNode(t) || TakesNodeAndList(t) || TakesDataObjectAndList(t)
         || TakesDataObjectNodeAndList(t) || TakesInterface(t) || TakesNode(t) || TakesPolicy(t) then
      Err(PayloadRejected)
    else Ok(Bare(t).(data := data, hasData := data))
  }

  /** The payload a callback event carries. */
  datatype CallbackPayload =
    | OpaqueData(present: bool)
    | CallbackDataObject(dObj: Option<DataObjectRef>)
    | CallbackInterface(iface: Option<InterfaceRef>)
    | CallbackNode(node: Option<NodeRef>)
    | CallbackPolicy(given: bool)

  /** The callback constructors: the type is always EVENT_TYPE_CALLBACK and a
   *  missing callback is refused. */
  function WithCallback(callback: bool, payload: CallbackPayload): (r: Result<Event, EventError>)
    ensures r.Err? <==> !callback
    ensures r.Err? ==> r.error == NoCallback
    ensures r.Ok? ==> r.value.eventType == Callback && r.value.callback
    ensures r.Ok? ==> r.value.hasData == match payload
      case OpaqueData(p) => p
      case CallbackDataObject(d) => d.Some?
      case CallbackInterface(i) => i.Some?
      case CallbackNode(n) => n.Some?
      case CallbackPolicy(g) => g
  {
    if !callback then Err(NoCallback)
    else
      var e := Bare(Callback).(callback := true);
      match payload
      case OpaqueData(p) => Ok(e.(data := p, hasData := p))
      case CallbackDataObject(d) => Ok(e.(dObj := d, hasData := d.Some?))
      case CallbackInterface(i) => Ok(e.(iface := i, hasData := i.Some?))
      case CallbackNode(n) => Ok(e.(node := n, hasData := n.Some?))
      case CallbackPolicy(g) => Ok(e.(policy := g, hasData := g))
  }

  // ---------------------------------------------------------------------------
  // Properties relating the constructors

  /** A private type accepts every payload in every typed constructor. */
  lemma PrivateTypesAcceptAnyPayload(t: EventType, privateSlots: nat, d: Option<DataObjectRef>,
                                     ds: seq<DataObjectRef>, n: Option<NodeRef>, ns: seq<NodeRef>,
                                     i: Option<InterfaceRef>, p: bool, x: bool)
    requires IsPrivate(t, privateSlots)
    ensures WithDataObject(t, d, privateSlots).Ok? && WithInterface(t, i, privateSlots).Ok?
    ensures WithNode(t, n, privateSlots).Ok? && WithPolicy(t, p, privateSlots).Ok?
    ensures WithDataObjectAndNode(t, d, n, privateSlots).Ok? && WithNodeAndList(t, n, ns, privateSlots).Ok?
    ensures WithDataObjectAndList(t, d, ns, privateSlots).Ok? && WithDataObjectNodeAndList(t, d, n, ns, privateSlots).Ok?
    ensures WithDataObjectList(t, ds, privateSlots).Ok? && WithData(t, x, privateSlots).Ok?
  {
  }

  /** Opaque data is refused for a public type exactly when a typed constructor
   *  takes a payload for that type: the opaque-data constructor cannot be used
   *  to bypass the typed ones. */
  lemma OpaqueDataRefusedForTypedPayloads(t: EventType, privateSlots: nat)
    requires 0 <= t < NumPublicTypes
    ensures WithData(t, true, privateSlots).Err? <==>
      (exists d: DataObjectRef :: WithDataObject(t, Some(d), privateSlots).Ok?)
      || (exists i: InterfaceRef :: WithInterface(t, Some(i), privateSlots).Ok?)
      || (exists n: NodeRef :: WithNode(t, Some(n), privateSlots).Ok?)
      || WithPolicy(t, true, privateSlots).Ok?
      || (exists d: DataObjectRef, n: NodeRef :: WithDataObjectAndNode(t, Some(d), Some(n), privateSlots).Ok?)
      || (exists n: NodeRef, m: NodeRef :: WithNodeAndList(t, Some(n), [m], privateSlots).Ok?)
      || (exists d: DataObjectRef, m: NodeRef :: WithDataObjectAndList(t, Some(d), [m], privateSlots).Ok?)
      || (exists d: DataObjectRef, m: NodeRef :: WithDataObjectNodeAndList(t, Some(d), None, [m], privateSlots).Ok?)
  {
    var d, n, i := DataObjectRef("", 0), NodeRef(""), InterfaceRef("");
    if WithData(t, true, privateSlots).Err? {
      assert WithDataObject(t, Some(d), privateSlots).Ok? || WithInterface(t, Some(i), privateSlots).Ok?
        || WithNode(t, Some(n), privateSlots).Ok? || WithPolicy(t, true, privateSlots).Ok?
        || WithDataObjectAndNode(t, Some(d), Some(n), privateSlots).Ok?
        || WithNodeAndList(t, Some(n), [n], privateSlots).Ok?
        || WithDataObjectAndList(t, Some(d), [n], privateSlots).Ok?
        || WithDataObjectNodeAndList(t, Some(d), None, [n], privateSlots).Ok?;
    }
  }

  /** A DATAOBJECT_DELETED event built from one data object holds it in its list
   *  and refers to no single data object. */
  lemma DeletedEventHoldsList(d: DataObjectRef, privateSlots: nat)
    ensures WithDataObject(DataObjectDeleted, Some(d), privateSlots).Ok?
    ensures WithDataObject(DataObjectDeleted, Some(d), privateSlots).value
            == WithDataObjectList(DataObjectDeleted, [d], privateSlots).value
  {
  }

  /** A DATAOBJECT_SEND event built from a data object and one node is the same
   *  event as one built from the data object and a one-node list. */
  lemma SendEventHoldsList(d: DataObjectRef, n: NodeRef, privateSlots: nat)
    ensures WithDataObjectAndNode(DataObjectSend, Some(d), Some(n), privateSlots).Ok?
    ensures WithDataObjectAndNode(DataObjectSend, Some(d), Some(n), privateSlots).value
            == WithDataObjectAndList(DataObjectSend, Some(d), [n], privateSlots).value
  {
  }

  /** The data-object-list constructor as written accepts a non-empty list for a
   *  type that refuses one (NODE_UPDATED, say); checking the list refuses it. */
  lemma DataObjectListCheckMissed(d: DataObjectRef, privateSlots: nat)
    ensures WithDataObjectListAsWritten(NodeUpdated, [d], privateSlots).Ok?
    ensures WithDataObjectList(NodeUpdated, [d], privateSlots) == Err(PayloadRejected)
  {
  }

  // ---------------------------------------------------------------------------
  // Description

  /** Tab-separated fields. */
  function Join(fields: seq<string>): (s: string)
    requires |fields| > 0
  {
    if |fields| == 1 then fields[0] else fields[0] + ['\t'] + Join(fields[1..])
  }

  /** Splits a string at every tab. */
  function Split(s: string): (fields: seq<string>)
    ensures |fields| > 0
  {
    if s == [] then [[]]
    else
      var rest := Split(s[1..]);
      if s[0] == '\t' then [[]] + rest else [[s[0]] + rest[0]] + rest[1..]
  }

  predicate NoTab(s: string)
  {
    forall k :: 0 <= k < |s| ==> s[k] != '\t'
  }

  lemma {:induction false} SplitAfterField(a: string, b: string)
    requires NoTab(a)
    ensures Split(a + ['\t'] + b) == [a] + Split(b)
    decreases |a|
  {
    if a == [] {
      assert a + ['\t'] + b == ['\t'] + b;
    } else {
      SplitAfterField(a[1..], b);
      assert (a + ['\t'] + b)[1..] == a[1..] + ['\t'] + b;
      assert [a[0]] + a[1..] == a;
    }
  }

  lemma {:induction false} SplitNoTab(a: string)
    requires NoTab(a)
    ensures Split(a) == [a]
    decreases |a|
  {
    if a != [] {
      SplitNoTab(a[1..]);
      assert [a[0]] + a[1..] == a;
    }
  }

  /** Splitting a join gives back the fields when none holds a tab. */
  lemma {:induction false} SplitJoin(fields: seq<string>)
    requires |fields| > 0
    requires forall k :: 0 <= k < |fields| ==> NoTab(fields[k])
    ensures Split(Join(fields)) == fields
    decreases |fields|
  {
    if |fields| == 1 {
      SplitNoTab(fields[0]);
    } else {
      SplitJoin(fields[1..]);
      SplitAfterField(fields[0], Join(fields[1..]));
    }
  }

  /** The number of an event type as the description prints it. */
  function TypeText(t: EventType): (s: string)
    ensures NoTab(s)
  {
    if t >= 0 then Decimal.Format(t) else "-" + Decimal.Format(-t)
  }

  /** The seven fields of `getDescription`: type number, data object
   *  ("id-num" or "-"), node id or "-", interface or "-", "+" or "-" for a
   *  policy, "+" or "-" for opaque data, and the type's name. */
  function DescriptionFields(e: Event, name: string): (fields: seq<string>)
    ensures |fields| == 7
    ensures fields[0] == TypeText(e.eventType) && fields[6] == name
    ensures fields[1] == (if e.dObj.Some? then e.dObj.value.idStr + "-" + Decimal.Format(e.dObj.value.num) else "-")
    ensures fields[2] == (if e.node.Some? then e.node.value.idStr else "-")
    ensures fields[3] == (if e.iface.Some? then e.iface.value.identifierStr else "-")
    ensures fields[4] == (if e.policy then "+" else "-") && fields[5] == (if e.data then "+" else "-")
  {
    [ TypeText(e.eventType),
      if e.dObj.Some? then e.dObj.value.idStr + "-" + Decimal.Format(e.dObj.value.num) else "-",
      if e.node.Some? then e.node.value.idStr else "-",
      if e.iface.Some? then e.iface.value.identifierStr else "-",
      if e.policy then "+" else "-",
      if e.data then "+" else "-",
      name ]
  }

  /** `getDescription`; `name` is the type's entry in the name table. */
  function Description(e: Event, name: string): (s: string)
  {
    Join(DescriptionFields(e, name))
  }

  /** When no identifier or name holds a tab, the description splits back into
   *  exactly its seven fields. */
  lemma DescriptionSplits(e: Event, name: string)
    requires e.dObj.Some? ==> NoTab(e.dObj.value.idStr)
    requires e.node.Some? ==> NoTab(e.node.value.idStr)
    requires e.iface.Some? ==> NoTab(e.iface.value.identifierStr)
    requires NoTab(name)
    ensures Split(Description(e, name)) == DescriptionFields(e, name)
    ensures |Split(Description(e, name))| == 7
  {
    var fs := DescriptionFields(e, name);
    if e.dObj.Some? {
      var s := Decimal.Format(e.dObj.value.num);
      assert NoTab(s) by {
        forall k | 0 <= k < |s| ensures s[k] != '\t' {
          assert Decimal.IsDigit(s[k]);
        }
      }
      assert NoTab(fs[1]);
    }
    SplitJoin(fs);
  }

  // ---------------------------------------------------------------------------
  // Registry of private event types

  /** A registered private type: its name and its handler. */
  datatype Registration = Registration(name: string, handler: nat)

  function Occupied(slots: seq<Option<Registration>>): (n: nat)
    ensures n <= |slots|
  {
    if slots == [] then 0 else Occupied(slots[..|slots| - 1]) + (if slots[|slots| - 1].Some? then 1 else 0)
  }

  /** The lowest free slot, if any. */
  function FirstFree(slots: seq<Option<Registration>>): (r: Option<nat>)
    ensures r.Some? ==> r.value < |slots| && slots[r.value].None?
    ensures r.Some? ==> forall j :: 0 <= j < r.value ==> slots[j].Some?
    ensures r.None? ==> forall j :: 0 <= j < |slots| ==> slots[j].Some?
  {
    if slots == [] then None
    else if slots[0].None? then Some(0)
    else
      var r := FirstFree(slots[1..]);
      if r.Some? then Some(r.value + 1) else None
  }

  lemma {:induction false} OccupiedUpdate(slots: seq<Option<Registration>>, k: nat, x: Option<Registration>)
    requires k < |slots|
    ensures Occupied(slots[k := x]) + (if slots[k].Some? then 1 else 0)
            == Occupied(slots) + (if x.Some? then 1 else 0)
    decreases |slots|
  {
    var n := |slots| - 1;
    if k < n {
      OccupiedUpdate(slots[..n], k, x);
      assert slots[k := x][..n] == slots[..n][k := x];
    } else {
      assert slots[k := x][..n] == slots[..n];
    }
  }

  /** The state of the registry: one entry per private slot, and
   *  `num_event_types`. */
  datatype RegistryState = RegistryState(slots: seq<Option<Registration>>, count: int)

  /** `num_event_types` counts the public types and the filled private slots. */
  predicate Consistent(st: RegistryState)
  {
    st.count == NumPublicTypes + Occupied(st.slots)
  }

  /** `registerType`: refused (-1) when `count` has reached `maxTypes`, when no
   *  slot is free or when the name cannot be copied; otherwise the lowest free
   *  slot is filled and its type returned. */
  function Register(st: RegistryState, maxTypes: int, name: string, handler: nat, allocOk: bool)
    : (res: (RegistryState, int))
    ensures res.1 == -1 <==> st.count >= maxTypes || FirstFree(st.slots).None? || !allocOk
    ensures res.1 == -1 ==> res.0 == st
    ensures res.1 != -1 ==>
      var k := FirstFree(st.slots).value;
      res.1 == NumPublicTypes + k && res.0 == RegistryState(st.slots[k := Some(Registration(name, handler))], st.count + 1)
  {
    if st.count >= maxTypes then (st, -1)
    else match FirstFree(st.slots)
      case None => (st, -1)
      case Some(k) =>
        if !allocOk then (st, -1)
        else (RegistryState(st.slots[k := Some(Registration(name, handler))], st.count + 1), NumPublicTypes + k)
  }

  /** `unregisterType`: refused (-1) for a non-private type or an empty slot;
   *  otherwise the slot is cleared and the decremented count returned. */
  function Unregister(st: RegistryState, t: EventType): (res: (RegistryState, int))
    ensures res.1 == -1 && Consistent(st) ==> res.0 == st
    ensures (!IsPrivate(t, |st.slots|) || st.slots[t - NumPublicTypes].None?) ==> res == (st, -1)
    ensures IsPrivate(t, |st.slots|) && st.slots[t - NumPublicTypes].Some? ==>
      res == (RegistryState(st.slots[t - NumPublicTypes := None], st.count - 1), st.count - 1)
  {
    if !IsPrivate(t, |st.slots|) then (st, -1)
    else if st.slots[t - NumPublicTypes].None? then (st, -1)
    else (RegistryState(st.slots[t - NumPublicTypes := None], st.count - 1), st.count - 1)
  }

  /** Both operations keep the count equal to the public types plus the filled
   *  slots. */
  lemma RegistryStaysConsistent(st: RegistryState, maxTypes: int, name: string, handler: nat, allocOk: bool, t: EventType)
    requires Consistent(st)
    ensures Consistent(Register(st, maxTypes, name, handler, allocOk).0)
    ensures Consistent(Unregister(st, t).0)
  {
    var r := Register(st, maxTypes, name, handler, allocOk);
    if r.1 != -1 {
      OccupiedUpdate(st.slots, FirstFree(st.slots).value, Some(Registration(name, handler)));
    }
    if IsPrivate(t, |st.slots|) && st.slots[t - NumPublicTypes].Some? {
      OccupiedUpdate(st.slots, t - NumPublicTypes, None);
    }
  }

  /** Registering a type and unregistering it again restores the registry, and
   *  the unregister call returns the count from before the registration. */
  lemma RegisterThenUnregister(st: RegistryState, maxTypes: int, name: string, handler: nat, allocOk: bool)
    requires Consistent(st)
    ensures var (st1, t) := Register(st, maxTypes, name, handler, allocOk);
      t != -1 ==> Unregister(st1, t) == (st, st.count)
  {
    var (st1, t) := Register(st, maxTypes, name, handler, allocOk);
    if t != -1 {
      var k := FirstFree(st.slots).value;
      assert st1.slots[k := None] == st.slots;
    }
  }

  /** The registry the kernel keeps in static storage: the private callback
   *  and name tables (one slot per private type) and `num_event_types`. */
  class Registry {
    const maxTypes: int
    const slots: array<Option<Registration>>
    var numEventTypes: int

    function State(): RegistryState
      reads this, slots
    {
      RegistryState(slots[..], numEventTypes)
    }

    ghost predicate Valid()
      reads this, slots
    {
      Consistent(State())
    }

    /** A registry with `privateSlots` free slots and only the public types. */
    constructor (privateSlots: nat, maxTypes: int)
      ensures Valid() && fresh(slots) && slots.Length == privateSlots && this.maxTypes == maxTypes
      ensures State() == RegistryState(seq(privateSlots, _ => None), NumPublicTypes)
    {
      this.maxTypes := maxTypes;
      slots := new Option<Registration>[privateSlots](_ => None);
      numEventTypes := NumPublicTypes;
      new;
      assert forall k :: 0 <= k < privateSlots ==> slots[k].None?;
      assert Occupied(slots[..]) == 0 by {
        NoneOccupied(slots[..]);
      }
    }

    /** `registerType`, with the first-free search over the slot table;
     *  `allocOk` says whether copying the name succeeds. */
    method RegisterType(name: string, handler: nat, allocOk: bool) returns (t: int)
      requires Valid()
      modifies this, slots
      ensures Valid()
      ensures (State(), t) == Register(old(State()), maxTypes, name, handler, allocOk)
    {
      ghost var st := State();
      RegistryStaysConsistent(st, maxTypes, name, handler, allocOk, 0);
      if numEventTypes >= maxTypes {
        return -1;
      }
      var k := 0;
      while k < slots.Length
        invariant 0 <= k <= slots.Length
        invariant forall j :: 0 <= j < k ==> slots[j].Some?
        invariant State() == st
      {
        if slots[k].None? {
          if !allocOk {
            return -1;
          }
          FirstFreeIs(slots[..], k);
          numEventTypes := numEventTypes + 1;
          slots[k] := Some(Registration(name, handler));
          return NumPublicTypes + k;
        }
        k := k + 1;
      }
      FirstFreeNone(slots[..]);
      return -1;
    }

    /** `unregisterType`. */
    method UnregisterType(t: EventType) returns (r: int)
      requires Valid()
      modifies this, slots
      ensures Valid()
      ensures (State(), r) == Unregister(old(State()), t)
    {
      ghost var st := State();
      RegistryStaysConsistent(st, maxTypes, "", 0, false, t);
      if !(NumPublicTypes <= t < NumPublicTypes + slots.Length) {
        return -1;
      }
      if slots[t - NumPublicTypes].Some? {
        slots[t - NumPublicTypes] := None;
        numEventTypes := numEventTypes - 1;
        return numEventTypes;
      } else {
        return -1;
      }
    }
  }

  lemma {:induction false} NoneOccupied(slots: seq<Option<Registration>>)
    requires forall k :: 0 <= k < |slots| ==> slots[k].None?
    ensures Occupied(slots) == 0
    decreases |slots|
  {
    if slots != [] {
      NoneOccupied(slots[..|slots| - 1]);
    }
  }

  lemma {:induction false} FirstFreeIs(slots: seq<Option<Registration>>, k: nat)
    requires k < |slots| && slots[k].None?
    requires forall j :: 0 <= j < k ==> slots[j].Some?
    ensures FirstFree(slots) == Some(k)
    decreases k
  {
    if k > 0 {
      FirstFreeIs(slots[1..], k - 1);
    }
  }

  lemma FirstFreeNone(slots: seq<Option<Registration>>)
    requires forall j :: 0 <= j < |slots| ==> slots[j].Some?
    ensures FirstFree(slots).None?
  {
  }
}
