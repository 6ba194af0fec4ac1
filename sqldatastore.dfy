/**
 * The data store operations of SQLDataStore.cpp: inserting filters, nodes
 * and data objects (an insert that hits a UNIQUE constraint replaces the old
 * row, or for a data object marks the object a duplicate), deleting data
 * objects, matching data objects against filters, the node-to-data-object
 * and data-object-to-node queries, and the repository upsert.
 *
 * The database is the value SQLTables.Tables held in a field; each SQL
 * statement becomes the function of SQLTables that gives its effect. The
 * rows a view returns come out in the view's ORDER BY order, which depends
 * on ratios and timestamps; every query takes that order as a parameter
 * (`order`, the rows as SQLite hands them over) and the model decides, row
 * by row, what the loop of the source does with each. Events posted to the
 * kernel are recorded, in order, as StoreEvents naming data objects and
 * nodes by id.
 */
module SQLDataStore {
  import opened Wrappers
  import opened SQLTables

  /** An event the data store posts to the kernel. */
  datatype StoreEvent =
    /** `new Event(eventType, dObjs)`: data objects matching the filter
     *  registered for an event type. */
    | FilterMatch(eventType: int, dObjs: seq<string>)
    /** The callback events reporting an inserted filter, node or data object. */
    | FilterInserted(eventType: int)
    | NodeInserted(nodeId: string)
    | DataObjectInserted(dObjId: string)
    /** EVENT_TYPE_DATAOBJECT_DELETED. */
    | DataObjectDeleted(dObjId: string)
    /** The callback event carrying a DataStoreQueryResult: its nodes and its
     *  data objects, in the order they were added. */
    | QueryResult(nodes: seq<string>, dObjs: seq<string>)

  /** A filter as `_insertFilter` receives it. */
  datatype Filter = Filter(event: int, attrs: seq<Attribute>)

  /** An interface of a node: its type and its identifier. */
  datatype Iface = Iface(ifaceType: int, mac: string)

  /** A node as `_insertNode` receives it; `hasDescription` says whether the
   *  node has a node description data object. */
  datatype Node = Node(nodeType: NodeType, id: string, attrs: seq<Attribute>, ifaces: seq<Iface>,
                       maxMatches: nat, threshold: nat, hasDescription: bool)

  /** A data object as `_insertDataObject` receives it. */
  datatype DObj = DObj(id: string, attrs: seq<Attribute>, dynamicLen: bool, dataLen: nat, persistent: bool)

  /** A node a data object query is run for: its id, the data object ids its
   *  bloomfilter holds, and its matching limits. */
  datatype QueryNode = QueryNode(id: string, bloom: set<string>, maxMatches: nat, threshold: nat)

  /** A data object rebuilt from its row by `createDataObject`. */
  datatype Loaded = Loaded(id: string, dynamicLen: bool, dataLen: int, ownsFile: bool)

  // ---------------------------------------------------------------------------
  // Rows kept by row-preserving updates

  lemma FilterKeysKeep(xs: seq<FilterRow>, ys: seq<FilterRow>, g: FilterRow)
    requires FilterKeys(xs) == FilterKeys(ys) && g in xs
    ensures exists h :: h in ys && h.rowid == g.rowid && h.event == g.event
  {
    var i :| 0 <= i < |xs| && xs[i] == g;
    assert FilterKeys(xs)[i] == FilterKeys(ys)[i];
    assert ys[i] in ys;
  }

  lemma NodeKeysKeep(xs: seq<NodeRow>, ys: seq<NodeRow>, g: NodeRow)
    requires NodeKeys(xs) == NodeKeys(ys) && g in xs
    ensures exists h :: h in ys && h.rowid == g.rowid && h.id == g.id && h.nodeType == g.nodeType
  {
    var i :| 0 <= i < |xs| && xs[i] == g;
    assert NodeKeys(xs)[i] == NodeKeys(ys)[i];
    assert ys[i] in ys;
  }

  lemma DataObjectKeysKeep(xs: seq<DataObjectRow>, ys: seq<DataObjectRow>, g: DataObjectRow)
    requires DataObjectKeys(xs) == DataObjectKeys(ys) && g in xs
    ensures exists h :: h in ys && h.rowid == g.rowid && h.id == g.id && h.dataLen == g.dataLen
  {
    var i :| 0 <= i < |xs| && xs[i] == g;
    assert DataObjectKeys(xs)[i] == DataObjectKeys(ys)[i];
    assert ys[i] in ys;
  }

  /** Linking attributes to an owner adds link rows of that owner to that
   *  link table only, and touches no other link table. */
  lemma {:induction false} LinkAllFrame(db: Tables, kind: Kind, owner: nat, attrs: seq<Attribute>)
    ensures var db' := LinkAll(db, kind, owner, attrs);
      (forall l :: l in LinksOf(db', kind) ==> l in LinksOf(db, kind) || l.owner == owner)
      && (forall k :: k != kind ==> LinksOf(db', k) == LinksOf(db, k))
    decreases |attrs|
  {
    if attrs != [] {
      LinkAllFrame(db, kind, owner, attrs[..|attrs| - 1]);
    }
  }

  /** One more attribute of the loop. */
  lemma LinkAllStep(db: Tables, kind: Kind, owner: nat, attrs: seq<Attribute>, k: nat)
    requires k < |attrs|
    ensures var a := attrs[k];
      var (db2, attr) := InsertAttribute(LinkAll(db, kind, owner, attrs[..k]), a.name, a.value);
      LinkAll(db, kind, owner, attrs[..k + 1]) == AddLink(db2, kind, owner, attr, a.weight)
  {
    assert attrs[..k + 1][..k] == attrs[..k];
  }

  // ---------------------------------------------------------------------------
  // _insertFilter

  /** The tables after the filter registered for an event type, if any, is
   *  deleted with its link rows. */
  function ClearedFilter(db: Tables, event: int): Tables
  {
    match FindFilter(db.filters, event)
    case Some(g) => DeleteFilter(db, g.rowid)
    case None => db
  }

  /** The tables after `_insertFilter`: a filter with the same event type is
   *  deleted first, then the filter row is inserted and its attributes
   *  linked with their weights. */
  function InsertedFilter(db: Tables, f: Filter): Tables
  {
    var db1 := ClearedFilter(db, f.event);
    LinkAll(NewFilterRow(db1, f.event), FilterKind, db1.next, f.attrs)
  }

  /** Deleting the filter of an event type keeps the tables valid, leaves no
   *  filter for it and none of its link rows, and keeps every other filter. */
  lemma ClearedFilterFacts(db: Tables, event: int)
    requires Valid(db)
    ensures var db1 := ClearedFilter(db, event);
      Valid(db1) && db1.next == db.next && FindFilter(db1.filters, event).None?
      && db1.nodeLinks == db.nodeLinks && db1.dataObjectLinks == db.dataObjectLinks
      && (forall l :: l in db1.filterLinks ==> l in db.filterLinks)
      && (FindFilter(db.filters, event).Some? ==>
            forall l :: l in db1.filterLinks ==> l.owner != FindFilter(db.filters, event).value.rowid)
      && (forall g :: g in db.filters && g.event != event ==> g in db1.filters)
  {
    if FindFilter(db.filters, event).Some? {
      DeleteFilterKeepsValid(db, FindFilter(db.filters, event).value.rowid);
    }
  }

  /** Inserting a filter whose event type has none: valid, its row has the
   *  next row id and all its attributes linked, the filter link rows are the
   *  old ones and its own, and every other filter keeps its row id. */
  lemma FreshFilterFacts(db: Tables, f: Filter)
    requires Valid(db) && FindFilter(db.filters, f.event).None?
    ensures var db' := LinkAll(NewFilterRow(db, f.event), FilterKind, db.next, f.attrs);
      Valid(db') && db'.next >= db.next + 1
      && FindFilter(db'.filters, f.event).Some? && FindFilter(db'.filters, f.event).value.rowid == db.next
      && (forall a :: a in f.attrs ==> Linked(db', FilterKind, db.next, a))
      && (forall l :: l in db'.filterLinks ==> l.owner == db.next || l in db.filterLinks)
      && (forall g :: g in db.filters ==>
            FindFilter(db'.filters, g.event).Some? && FindFilter(db'.filters, g.event).value.rowid == g.rowid)
      && db'.nodeLinks == db.nodeLinks && db'.dataObjectLinks == db.dataObjectLinks
  {
    var db2 := NewFilterRow(db, f.event);
    var db' := LinkAll(db2, FilterKind, db.next, f.attrs);
    assert Valid(db') && SameRows(db2, db') && db'.next >= db2.next
           && (forall a :: a in f.attrs ==> Linked(db', FilterKind, db.next, a)) by {
      NewFilterKeepsValid(db, f.event);
      LinkAllKeepsValid(db2, FilterKind, db.next, f.attrs);
    }
    assert (forall l :: l in db'.filterLinks ==> l.owner == db.next || l in db.filterLinks)
           && db'.nodeLinks == db.nodeLinks && db'.dataObjectLinks == db.dataObjectLinks by {
      LinkAllFrame(db2, FilterKind, db.next, f.attrs);
      assert LinksOf(db', NodeKind) == LinksOf(db2, NodeKind);
      assert LinksOf(db', DataObjectKind) == LinksOf(db2, DataObjectKind);
    }
    FiltersFoundAgain(db.filters, FilterRow(db.next, f.event, 0), db'.filters);
  }

  /** Rows with the same keys as the old rows and one appended row, event
   *  types being unique, find the appended row and every old row by event
   *  type. */
  lemma FiltersFoundAgain(filters: seq<FilterRow>, row: FilterRow, filters': seq<FilterRow>)
    requires FilterKeys(filters + [row]) == FilterKeys(filters')
    requires forall a, b :: a in filters' && b in filters' && a.event == b.event ==> a == b
    ensures FindFilter(filters', row.event).Some? && FindFilter(filters', row.event).value.rowid == row.rowid
    ensures forall g :: g in filters ==>
      FindFilter(filters', g.event).Some? && FindFilter(filters', g.event).value.rowid == g.rowid
  {
    assert row in filters + [row];
    FilterKeysKeep(filters + [row], filters', row);
    forall g | g in filters
      ensures FindFilter(filters', g.event).Some? && FindFilter(filters', g.event).value.rowid == g.rowid
    {
      assert g in filters + [row];
      FilterKeysKeep(filters + [row], filters', g);
    }
  }

  /** Inserting a filter keeps the tables valid; afterwards exactly one row
   *  has its event type, with the row id handed out by this insert and all
   *  its attributes linked; a replaced filter's link rows are gone; every
   *  filter of another event type keeps its row, and the node and data
   *  object links are untouched. */
  lemma InsertedFilterFacts(db: Tables, f: Filter)
    requires Valid(db)
    ensures var db' := InsertedFilter(db, f);
      Valid(db') && db'.next >= db.next + 1
      && FindFilter(db'.filters, f.event).Some? && FindFilter(db'.filters, f.event).value.rowid == db.next
      && (forall a :: a in f.attrs ==> Linked(db', FilterKind, db.next, a))
      && (forall l :: l in db'.filterLinks ==> l.owner == db.next || l in db.filterLinks)
      && (FindFilter(db.filters, f.event).Some? ==>
            forall l :: l in db'.filterLinks ==> l.owner != FindFilter(db.filters, f.event).value.rowid)
      && (forall g :: g in db.filters && g.event != f.event ==>
            FindFilter(db'.filters, g.event).Some? && FindFilter(db'.filters, g.event).value.rowid == g.rowid)
      && db'.nodeLinks == db.nodeLinks && db'.dataObjectLinks == db.dataObjectLinks
  {
    ClearedFilterFacts(db, f.event);
    FreshFilterFacts(ClearedFilter(db, f.event), f);
    if FindFilter(db.filters, f.event).Some? {
      assert FindFilter(db.filters, f.event).value.rowid < db.next;
    }
  }

  lemma InsertedFilterValid(db: Tables, f: Filter)
    requires Valid(db)
    ensures Valid(InsertedFilter(db, f))
  {
    InsertedFilterFacts(db, f);
  }

  // ---------------------------------------------------------------------------
  // _insertNode

  /** `INSERT INTO interfaces`: refused by the UNIQUE (type, mac) constraint
   *  when an interface with that type and identifier is stored already. */
  function InsertInterface(db: Tables, i: Iface, nodeRowid: nat): (db': Tables)
    ensures exists r :: r in db'.interfaces && r.ifaceType == i.ifaceType && r.mac == i.mac
    ensures forall r :: r in db.interfaces ==> r in db'.interfaces
  {
    if exists r :: r in db.interfaces && r.ifaceType == i.ifaceType && r.mac == i.mac then db
    else
      var r := InterfaceRow(db.next, i.ifaceType, i.mac, nodeRowid);
      assert r in db.interfaces + [r];
      db.(interfaces := db.interfaces + [r], next := db.next + 1)
  }

  /** The interface loop of `_insertNode`. */
  function InsertInterfaces(db: Tables, ifaces: seq<Iface>, nodeRowid: nat): Tables
    decreases |ifaces|
  {
    if ifaces == [] then db
    else InsertInterface(InsertInterfaces(db, ifaces[..|ifaces| - 1], nodeRowid), ifaces[|ifaces| - 1], nodeRowid)
  }

  /** The interface loop changes only the interface table and the row id
   *  counter, and afterwards every interface of the node is stored. */
  lemma {:induction false} InsertInterfacesFacts(db: Tables, ifaces: seq<Iface>, nodeRowid: nat)
    ensures var db' := InsertInterfaces(db, ifaces, nodeRowid);
      db' == db.(interfaces := db'.interfaces, next := db'.next) && db'.next >= db.next
      && (forall r :: r in db.interfaces ==> r in db'.interfaces)
      && (forall i :: i in ifaces ==>
            exists r :: r in db'.interfaces && r.ifaceType == i.ifaceType && r.mac == i.mac)
    decreases |ifaces|
  {
    if ifaces != [] {
      var init := ifaces[..|ifaces| - 1];
      InsertInterfacesFacts(db, init, nodeRowid);
      var db1 := InsertInterfaces(db, init, nodeRowid);
      var db' := InsertInterface(db1, ifaces[|ifaces| - 1], nodeRowid);
      forall i | i in ifaces
        ensures exists r :: r in db'.interfaces && r.ifaceType == i.ifaceType && r.mac == i.mac
      {
        if i in init {
          var r :| r in db1.interfaces && r.ifaceType == i.ifaceType && r.mac == i.mac;
          assert r in db'.interfaces;
        }
      }
    }
  }

  /** The tables after the node with an id, if any, is deleted with its link
   *  rows and interfaces. */
  function ClearedNode(db: Tables, id: string): Tables
  {
    match FindNode(db.nodes, id)
    case Some(g) => DeleteNode(db, g.rowid)
    case None => db
  }

  /** The tables after a successful `_insertNode`: a node with the same id is
   *  deleted first (its links and interfaces with it), then the node row is
   *  inserted, its attributes linked with their weights and its interfaces
   *  inserted. */
  function InsertedNode(db: Tables, n: Node): Tables
  {
    var db1 := ClearedNode(db, n.id);
    var db2 := LinkAll(NewNodeRow(db1, n.nodeType, n.id, n.maxMatches, n.threshold), NodeKind, db1.next, n.attrs);
    InsertInterfaces(db2, n.ifaces, db1.next)
  }

  /** Deleting the node with an id keeps the tables valid, leaves no node
   *  with that id and none of its link rows, and keeps every other node. */
  lemma ClearedNodeFacts(db: Tables, id: string)
    requires Valid(db)
    ensures var db1 := ClearedNode(db, id);
      Valid(db1) && db1.next == db.next && FindNode(db1.nodes, id).None?
      && db1.filterLinks == db.filterLinks && db1.dataObjectLinks == db.dataObjectLinks
      && (forall l :: l in db1.nodeLinks ==> l in db.nodeLinks)
      && (FindNode(db.nodes, id).Some? ==>
            forall l :: l in db1.nodeLinks ==> l.owner != FindNode(db.nodes, id).value.rowid)
      && (forall g :: g in db.nodes && g.id != id ==> g in db1.nodes)
  {
    if FindNode(db.nodes, id).Some? {
      DeleteNodeKeepsValid(db, FindNode(db.nodes, id).value.rowid);
    }
  }

  /** Inserting a node whose id has no row: valid, its row has the next row
   *  id, its type and all its attributes linked, and every other node keeps
   *  its row id. */
  lemma FreshNodeFacts(db: Tables, n: Node)
    requires Valid(db) && FindNode(db.nodes, n.id).None?
    ensures var db' := LinkAll(NewNodeRow(db, n.nodeType, n.id, n.maxMatches, n.threshold), NodeKind, db.next, n.attrs);
      Valid(db') && db'.next >= db.next + 1
      && FindNode(db'.nodes, n.id).Some? && FindNode(db'.nodes, n.id).value.rowid == db.next
      && FindNode(db'.nodes, n.id).value.nodeType == n.nodeType
      && (forall a :: a in n.attrs ==> Linked(db', NodeKind, db.next, a))
      && (forall l :: l in db'.nodeLinks ==> l.owner == db.next || l in db.nodeLinks)
      && (forall g :: g in db.nodes ==>
            FindNode(db'.nodes, g.id).Some? && FindNode(db'.nodes, g.id).value.rowid == g.rowid)
      && db'.filterLinks == db.filterLinks && db'.dataObjectLinks == db.dataObjectLinks
  {
    var db2 := NewNodeRow(db, n.nodeType, n.id, n.maxMatches, n.threshold);
    var db' := LinkAll(db2, NodeKind, db.next, n.attrs);
    assert Valid(db') && SameRows(db2, db') && db'.next >= db2.next
           && (forall a :: a in n.attrs ==> Linked(db', NodeKind, db.next, a)) by {
      NewNodeKeepsValid(db, n.nodeType, n.id, n.maxMatches, n.threshold);
      LinkAllKeepsValid(db2, NodeKind, db.next, n.attrs);
    }
    assert (forall l :: l in db'.nodeLinks ==> l.owner == db.next || l in db.nodeLinks)
           && db'.filterLinks == db.filterLinks && db'.dataObjectLinks == db.dataObjectLinks by {
      LinkAllFrame(db2, NodeKind, db.next, n.attrs);
      assert LinksOf(db', FilterKind) == LinksOf(db2, FilterKind);
      assert LinksOf(db', DataObjectKind) == LinksOf(db2, DataObjectKind);
    }
    NodesFoundAgain(db.nodes, NodeRow(db.next, n.nodeType, n.id, 0, 0, n.maxMatches, n.threshold), db'.nodes);
  }

  /** Rows with the same keys as the old rows and one appended row, ids
   *  being unique, find the appended row and every old row by id. */
  lemma NodesFoundAgain(nodes: seq<NodeRow>, row: NodeRow, nodes': seq<NodeRow>)
    requires NodeKeys(nodes + [row]) == NodeKeys(nodes')
    requires forall a, b :: a in nodes' && b in nodes' && a.id == b.id ==> a == b
    ensures FindNode(nodes', row.id).Some? && FindNode(nodes', row.id).value.rowid == row.rowid
    ensures FindNode(nodes', row.id).value.nodeType == row.nodeType
    ensures forall g :: g in nodes ==>
      FindNode(nodes', g.id).Some? && FindNode(nodes', g.id).value.rowid == g.rowid
  {
    assert row in nodes + [row];
    NodeKeysKeep(nodes + [row], nodes', row);
    forall g | g in nodes
      ensures FindNode(nodes', g.id).Some? && FindNode(nodes', g.id).value.rowid == g.rowid
    {
      assert g in nodes + [row];
      NodeKeysKeep(nodes + [row], nodes', g);
    }
  }

  /** Inserting a node keeps the tables valid; afterwards exactly one row has
   *  its id, with the row id handed out by this insert, its type, all its
   *  attributes linked and a sum of weights equal to that of its link rows;
   *  all its interfaces are stored; a replaced node's link rows are gone;
   *  every other node keeps its row. */
  lemma InsertedNodeFacts(db: Tables, n: Node)
    requires Valid(db)
    ensures var db' := InsertedNode(db, n);
      Valid(db') && db'.next >= db.next + 1
      && FindNode(db'.nodes, n.id).Some? && FindNode(db'.nodes, n.id).value.rowid == db.next
      && FindNode(db'.nodes, n.id).value.nodeType == n.nodeType
      && FindNode(db'.nodes, n.id).value.sumWeights == WeightSum(db'.nodeLinks, db.next)
      && (forall a :: a in n.attrs ==> Linked(db', NodeKind, db.next, a))
      && (forall i :: i in n.ifaces ==> exists r :: r in db'.interfaces && r.ifaceType == i.ifaceType && r.mac == i.mac)
      && (FindNode(db.nodes, n.id).Some? ==>
            forall l :: l in db'.nodeLinks ==> l.owner != FindNode(db.nodes, n.id).value.rowid)
      && (forall g :: g in db.nodes && g.id != n.id ==>
            FindNode(db'.nodes, g.id).Some? && FindNode(db'.nodes, g.id).value.rowid == g.rowid)
      && db'.filterLinks == db.filterLinks && db'.dataObjectLinks == db.dataObjectLinks
  {
    ClearedNodeFacts(db, n.id);
    var db1 := ClearedNode(db, n.id);
    FreshNodeFacts(db1, n);
    var db3 := LinkAll(NewNodeRow(db1, n.nodeType, n.id, n.maxMatches, n.threshold), NodeKind, db1.next, n.attrs);
    InsertInterfacesFacts(db3, n.ifaces, db1.next);
    var db' := InsertInterfaces(db3, n.ifaces, db1.next);
    assert db'.nodes == db3.nodes && db'.nodeLinks == db3.nodeLinks && db'.attributes == db3.attributes;
    assert Valid(db');
    if FindNode(db.nodes, n.id).Some? {
      assert FindNode(db.nodes, n.id).value.rowid < db.next;
    }
  }

  lemma InsertedNodeValid(db: Tables, n: Node)
    requires Valid(db)
    ensures Valid(InsertedNode(db, n))
  {
    InsertedNodeFacts(db, n);
  }

  // ---------------------------------------------------------------------------
  // _insertDataObject and createDataObject

  /** The tables after the data object row is inserted and its attributes
   *  linked. */
  function StoredDataObject(db: Tables, o: DObj): Tables
  {
    LinkAll(NewDataObjectRow(db, o.id, StoredDataLen(o.dynamicLen, o.dataLen)), DataObjectKind, db.next, o.attrs)
  }

  /** The tables after `_insertDataObject`: unchanged for a duplicate id;
   *  otherwise the object is stored, and a non-persistent object is deleted
   *  again once the filters have been evaluated. */
  function InsertedDataObject(db: Tables, o: DObj): Tables
  {
    if FindDataObject(db.dataObjects, o.id).Some? then db
    else
      var s := StoredDataObject(db, o);
      if o.persistent then s else DeletedById(s, o.id)
  }

  /** `DELETE FROM dataobjects WHERE id=...`, with the trigger deleting the
   *  link rows of the row deleted. */
  function DeletedById(db: Tables, id: string): Tables
  {
    match FindDataObject(db.dataObjects, id)
    case Some(d) => DeleteDataObject(db, d.rowid)
    case None => db
  }

  /** `createDataObject`: the data object rebuilt from a row; a stored data
   *  length of -1 is a dynamic length, and the object does not own its file. */
  function CreateDataObject(row: DataObjectRow): (d: Loaded)
    ensures d.id == row.id && !d.ownsFile
    ensures d.dynamicLen <==> row.dataLen == -1
    ensures !d.dynamicLen ==> d.dataLen == row.dataLen
  {
    var (dynamic, len) := ReadDataLen(row.dataLen);
    Loaded(row.id, dynamic, len, false)
  }

  /** Storing a new data object keeps the tables valid and yields exactly one
   *  row with its id, the row id handed out by this insert, its attributes
   *  linked; read back, the row gives the object's data length, dynamic or
   *  not. */
  lemma StoredDataObjectFacts(db: Tables, o: DObj)
    requires Valid(db) && FindDataObject(db.dataObjects, o.id).None?
    ensures var s := StoredDataObject(db, o);
      Valid(s) && s.next >= db.next + 1
      && FindDataObject(s.dataObjects, o.id).Some? && FindDataObject(s.dataObjects, o.id).value.rowid == db.next
      && CreateDataObject(FindDataObject(s.dataObjects, o.id).value).dynamicLen == o.dynamicLen
      && (!o.dynamicLen ==> CreateDataObject(FindDataObject(s.dataObjects, o.id).value).dataLen == o.dataLen)
      && (forall a :: a in o.attrs ==> Linked(s, DataObjectKind, db.next, a))
      && (forall g :: g in db.dataObjects ==> g in s.dataObjects)
      && s.filters == db.filters && s.filterLinks == db.filterLinks && s.nodes == db.nodes
  {
    var stored := StoredDataLen(o.dynamicLen, o.dataLen);
    NewDataObjectKeepsValid(db, o.id, stored);
    var db2 := NewDataObjectRow(db, o.id, stored);
    LinkAllKeepsValid(db2, DataObjectKind, db.next, o.attrs);
    LinkAllFrame(db2, DataObjectKind, db.next, o.attrs);
    LinkAllKeepsDataObjectRows(db2, db.next, o.attrs);
    var s := LinkAll(db2, DataObjectKind, db.next, o.attrs);
    var row := DataObjectRow(db.next, o.id, stored, 0);
    assert row in db2.dataObjects;
    DataObjectKeysKeep(db2.dataObjects, s.dataObjects, row);
    DataLenRoundTrip(o.dynamicLen, o.dataLen);
  }

  lemma StoredDataObjectValid(db: Tables, o: DObj)
    requires Valid(db) && FindDataObject(db.dataObjects, o.id).None?
    ensures Valid(StoredDataObject(db, o)) && FindDataObject(StoredDataObject(db, o).dataObjects, o.id).Some?
  {
    StoredDataObjectFacts(db, o);
  }

  /** Linking a filter's attributes leaves the data object rows as they
   *  were. */
  lemma {:induction false} LinkFilterKeepsDataObjects(db: Tables, owner: nat, attrs: seq<Attribute>)
    ensures LinkAll(db, FilterKind, owner, attrs).dataObjects == db.dataObjects
    decreases |attrs|
  {
    if attrs != [] {
      LinkFilterKeepsDataObjects(db, owner, attrs[..|attrs| - 1]);
    }
  }

  /** Linking attributes to a data object changes no other table's rows, and
   *  leaves the other data object rows as they were. */
  lemma {:induction false} LinkAllKeepsDataObjectRows(db: Tables, owner: nat, attrs: seq<Attribute>)
    ensures var db' := LinkAll(db, DataObjectKind, owner, attrs);
      db'.filters == db.filters && db'.nodes == db.nodes && db'.filterLinks == db.filterLinks
      && forall g :: g in db.dataObjects && g.rowid != owner ==> g in db'.dataObjects
    decreases |attrs|
  {
    if attrs != [] {
      var init := attrs[..|attrs| - 1];
      LinkAllKeepsDataObjectRows(db, owner, init);
      var db1 := LinkAll(db, DataObjectKind, owner, init);
      var a := attrs[|attrs| - 1];
      var (db2, attr) := InsertAttribute(db1, a.name, a.value);
      forall g | g in db.dataObjects && g.rowid != owner
        ensures g in LinkAll(db, DataObjectKind, owner, attrs).dataObjects
      {
        assert g in db2.dataObjects;
        if !HasLink(db2.dataObjectLinks, owner, attr) {
          var i :| 0 <= i < |db2.dataObjects| && db2.dataObjects[i] == g;
          assert BumpDataObject(db2.dataObjects, owner)[i] == g;
        }
      }
    }
  }

  /** A duplicate leaves the tables as they were; a persistent new object is
   *  stored; a non-persistent one is gone afterwards, with its links. */
  lemma InsertedDataObjectFacts(db: Tables, o: DObj)
    requires Valid(db)
    ensures var db' := InsertedDataObject(db, o);
      Valid(db')
      && (FindDataObject(db.dataObjects, o.id).Some? ==> db' == db)
      && (FindDataObject(db.dataObjects, o.id).None? && o.persistent ==>
            FindDataObject(db'.dataObjects, o.id).Some? && FindDataObject(db'.dataObjects, o.id).value.rowid == db.next)
      && (FindDataObject(db.dataObjects, o.id).None? && !o.persistent ==>
            FindDataObject(db'.dataObjects, o.id).None? && (forall l :: l in db'.dataObjectLinks ==> l.owner != db.next))
      && (forall g :: g in db.dataObjects ==> g in db'.dataObjects)
  {
    var db' := InsertedDataObject(db, o);
    if FindDataObject(db.dataObjects, o.id).None? {
      StoredDataObjectFacts(db, o);
      var s := StoredDataObject(db, o);
      if o.persistent {
        assert db' == s;
      } else {
        assert db' == DeleteDataObject(s, db.next);
        DeleteDataObjectKeepsValid(s, db.next);
        assert Valid(db');
        forall g | g in db.dataObjects ensures g in db'.dataObjects {
          assert g.rowid < db.next;
        }
        NoRowAfterDelete(s, o.id, db.next);
      }
    }
  }

  /** After deleting the row of an id, no row has that id. */
  lemma NoRowAfterDelete(s: Tables, id: string, rowid: nat)
    requires Valid(s) && FindDataObject(s.dataObjects, id).Some? && FindDataObject(s.dataObjects, id).value.rowid == rowid
    ensures FindDataObject(DeleteDataObject(s, rowid).dataObjects, id).None?
  {
    DeleteDataObjectKeepsValid(s, rowid);
  }

  // ---------------------------------------------------------------------------
  // Matching data objects against filters

  /** A view over a table yields each stored row once, in the view's own
   *  order. */
  predicate ListsRows<T(==)>(order: seq<T>, rows: seq<T>)
  {
    multiset(order) == multiset(rows)
  }

  /** The rows a view lists are the stored rows, and there are as many. */
  lemma ListedAreStored<T>(order: seq<T>, rows: seq<T>)
    requires ListsRows(order, rows)
    ensures forall x :: x in order <==> x in rows
    ensures |order| == |rows|
  {
    assert |multiset(order)| == |multiset(rows)|;
    forall x
      ensures x in order <==> x in rows
    {
      assert x in order <==> x in multiset(order);
      assert x in rows <==> x in multiset(rows);
    }
  }

  /** The events `evaluateFilters` posts for one data object: one per filter
   *  row, in the view's order, whose ratio for the object is positive. */
  function FilterEvents(db: Tables, order: seq<FilterRow>, d: DataObjectRow): (es: seq<StoreEvent>)
    ensures |es| <= |order|
  {
    if order == [] then []
    else (if FilterMatches(db, order[0], d) then [FilterMatch(order[0].event, [d.id])] else [])
         + FilterEvents(db, order[1..], d)
  }

  /** Each event carries the data object alone and names a matching
   *  filter's event type, and every matching filter has its event. */
  lemma {:induction false} FilterEventsListed(db: Tables, order: seq<FilterRow>, d: DataObjectRow)
    ensures var es := FilterEvents(db, order, d);
      (forall e :: e in es ==>
         e.FilterMatch? && e.dObjs == [d.id] && exists f :: f in order && f.event == e.eventType && FilterMatches(db, f, d))
      && (forall f :: f in order && FilterMatches(db, f, d) ==> FilterMatch(f.event, [d.id]) in es)
  {
    if order != [] {
      FilterEventsListed(db, order[1..], d);
      assert forall f :: f in order[1..] ==> f in order;
      assert forall f :: f in order ==> f == order[0] || f in order[1..];
    }
  }

  /** Over the view of the stored filters: each event carries the data
   *  object alone and names a stored filter it matches, every stored filter
   *  it matches has its event, and there are no more events than filters. */
  lemma FilterEventsSpec(db: Tables, order: seq<FilterRow>, d: DataObjectRow)
    requires ListsRows(order, db.filters)
    ensures var es := FilterEvents(db, order, d);
      |es| <= |db.filters|
      && (forall e :: e in es ==>
           e.FilterMatch? && e.dObjs == [d.id] && exists f :: f in db.filters && f.event == e.eventType && FilterMatches(db, f, d))
      && (forall f :: f in db.filters && FilterMatches(db, f, d) ==> FilterMatch(f.event, [d.id]) in es)
  {
    FilterEventsListed(db, order, d);
    ListedAreStored(order, db.filters);
  }

  /** The data object matches the filter registered for an event type. */
  predicate MatchesEvent(db: Tables, eventType: int, d: DataObjectRow)
  {
    FindFilter(db.filters, eventType).Some? && FilterMatches(db, FindFilter(db.filters, eventType).value, d)
  }

  /** The most data objects one `evaluateDataObjects` reports. */
  const MaxEvaluated: nat := 10

  /** The ids `evaluateDataObjects` collects: those of the rows, in the view's
   *  order, matching the event type's filter, stopping once `room` are
   *  collected. */
  function EventMatches(db: Tables, eventType: int, order: seq<DataObjectRow>, room: nat): (ids: seq<string>)
    ensures |ids| <= room && |ids| <= |order|
    decreases |order|
  {
    if order == [] || room == 0 then []
    else if MatchesEvent(db, eventType, order[0]) then [order[0].id] + EventMatches(db, eventType, order[1..], room - 1)
    else EventMatches(db, eventType, order[1..], room)
  }

  /** Every id collected is that of a row matching the filter; and unless
   *  the room ran out, every matching row's id is collected. */
  lemma {:induction false} EventMatchesListed(db: Tables, eventType: int, order: seq<DataObjectRow>, room: nat)
    ensures var ids := EventMatches(db, eventType, order, room);
      (forall x :: x in ids ==> exists d :: d in order && d.id == x && MatchesEvent(db, eventType, d))
      && (|ids| < room ==> forall d :: d in order && MatchesEvent(db, eventType, d) ==> d.id in ids)
    decreases |order|
  {
    if order != [] && room > 0 {
      var m := MatchesEvent(db, eventType, order[0]);
      EventMatchesListed(db, eventType, order[1..], if m then room - 1 else room);
      assert forall d :: d in order[1..] ==> d in order;
      assert forall d :: d in order ==> d == order[0] || d in order[1..];
    }
  }

  /** Over the view of the stored data objects: every id collected is that
   *  of a stored data object matching the event type's filter; and unless
   *  the room ran out, every stored data object matching it is collected. */
  lemma EventMatchesSpec(db: Tables, eventType: int, order: seq<DataObjectRow>, room: nat)
    requires ListsRows(order, db.dataObjects)
    ensures var ids := EventMatches(db, eventType, order, room);
      (forall x :: x in ids ==> exists d :: d in db.dataObjects && d.id == x && MatchesEvent(db, eventType, d))
      && (|ids| < room ==> forall d :: d in db.dataObjects && MatchesEvent(db, eventType, d) ==> d.id in ids)
  {
    EventMatchesListed(db, eventType, order, room);
    ListedAreStored(order, db.dataObjects);
  }

  /** The body of the `evaluateDataObjects` loop for one row. */
  method EventMatchOne(db: Tables, eventType: int, order: seq<DataObjectRow>, k: nat, room: nat, found: seq<string>)
    returns (found': seq<string>)
    requires k < |order| && room > 0
    ensures found' == if MatchesEvent(db, eventType, order[k]) then found + [order[k].id] else found
    ensures found + EventMatches(db, eventType, order[k..], room)
      == found' + EventMatches(db, eventType, order[k + 1..], room - (|found'| - |found|))
  {
    EventMatchesStep(db, eventType, order, k, room, found);
    found' := found;
    if MatchesEvent(db, eventType, order[k]) {
      found' := found + [order[k].id];
    }
  }

  /** One row of the `evaluateDataObjects` loop, after the ids `found`
   *  collected before it. */
  lemma EventMatchesStep(db: Tables, eventType: int, order: seq<DataObjectRow>, k: nat, room: nat, found: seq<string>)
    requires k < |order| && room > 0
    ensures var found' := if MatchesEvent(db, eventType, order[k]) then found + [order[k].id] else found;
      found + EventMatches(db, eventType, order[k..], room)
      == found' + EventMatches(db, eventType, order[k + 1..], room - (|found'| - |found|))
  {
    assert order[k..][1..] == order[k + 1..];
    var rest := EventMatches(db, eventType, order[k + 1..], room - 1);
    assert found + ([order[k].id] + rest) == (found + [order[k].id]) + rest;
  }

  // ---------------------------------------------------------------------------
  // Node to data objects

  /** A row of the rated node-to-data-object view the query keeps: the pair
   *  matches with the threshold and attribute count asked for, and neither
   *  bloomfilter holds the data object. */
  predicate Wanted(db: Tables, noMatch: nat, n: NodeRow, bloom: set<string>, also: set<string>,
                   threshold: nat, attrMatch: nat, d: DataObjectRow)
  {
    Matches(db, noMatch, n, d, threshold, attrMatch) && d.id !in bloom && d.id !in also
  }

  /** The data objects `_doDataObjectQueryStep2` adds for a node: the wanted
   *  rows in the view's order, stopping at `limit` of them unless `limit`
   *  is 0. */
  function Step2(db: Tables, noMatch: nat, n: NodeRow, bloom: set<string>, also: set<string>,
                 threshold: nat, attrMatch: nat, order: seq<DataObjectRow>, limit: nat): (ids: seq<string>)
    ensures |ids| <= |order| && (limit > 0 ==> |ids| <= limit)
    decreases |order|
  {
    if order == [] then []
    else if Wanted(db, noMatch, n, bloom, also, threshold, attrMatch, order[0]) then
      if limit == 1 then [order[0].id]
      else [order[0].id] + Step2(db, noMatch, n, bloom, also, threshold, attrMatch, order[1..], if limit == 0 then 0 else limit - 1)
    else Step2(db, noMatch, n, bloom, also, threshold, attrMatch, order[1..], limit)
  }

  /** Every data object added matches the node and is in neither
   *  bloomfilter; and unless the limit was reached, every such data object
   *  of the view is added. */
  lemma {:induction false} Step2Listed(db: Tables, noMatch: nat, n: NodeRow, bloom: set<string>, also: set<string>,
                                     threshold: nat, attrMatch: nat, order: seq<DataObjectRow>, limit: nat)
    ensures var ids := Step2(db, noMatch, n, bloom, also, threshold, attrMatch, order, limit);
      (forall x :: x in ids ==>
         x !in bloom && x !in also && exists d :: d in order && d.id == x && Matches(db, noMatch, n, d, threshold, attrMatch))
      && ((limit == 0 || |ids| < limit) ==>
           forall d :: d in order && Wanted(db, noMatch, n, bloom, also, threshold, attrMatch, d) ==> d.id in ids)
    decreases |order|
  {
    if order != [] {
      var w := Wanted(db, noMatch, n, bloom, also, threshold, attrMatch, order[0]);
      var limit' := if w && limit != 0 then limit - 1 else limit;
      if !(w && limit == 1) {
        Step2Listed(db, noMatch, n, bloom, also, threshold, attrMatch, order[1..], limit');
      }
      assert forall d :: d in order[1..] ==> d in order;
      assert forall d :: d in order ==> d == order[0] || d in order[1..];
    }
  }

  /** Over the view of the stored data objects: every data object added is
   *  a stored one matching the node and in neither bloomfilter; and unless
   *  the limit was reached, every such stored data object is added. */
  lemma Step2Spec(db: Tables, noMatch: nat, n: NodeRow, bloom: set<string>, also: set<string>,
                  threshold: nat, attrMatch: nat, order: seq<DataObjectRow>, limit: nat)
    requires ListsRows(order, db.dataObjects)
    ensures var ids := Step2(db, noMatch, n, bloom, also, threshold, attrMatch, order, limit);
      (forall x :: x in ids ==>
         x !in bloom && x !in also && exists d :: d in db.dataObjects && d.id == x && Matches(db, noMatch, n, d, threshold, attrMatch))
      && ((limit == 0 || |ids| < limit) ==>
           forall d :: d in db.dataObjects && Wanted(db, noMatch, n, bloom, also, threshold, attrMatch, d) ==> d.id in ids)
  {
    Step2Listed(db, noMatch, n, bloom, also, threshold, attrMatch, order, limit);
    ListedAreStored(order, db.dataObjects);
  }

  /** One row of the `_doDataObjectQueryStep2` loop, after the ids `found`
   *  added before it. */
  lemma Step2Step(db: Tables, noMatch: nat, n: NodeRow, bloom: set<string>, also: set<string>,
                  threshold: nat, attrMatch: nat, order: seq<DataObjectRow>, k: nat, limit: nat, found: seq<string>)
    requires k < |order|
    ensures var w := Wanted(db, noMatch, n, bloom, also, threshold, attrMatch, order[k]);
      found + Step2(db, noMatch, n, bloom, also, threshold, attrMatch, order[k..], limit)
      == if w && limit == 1 then found + [order[k].id]
         else (if w then found + [order[k].id] else found)
              + Step2(db, noMatch, n, bloom, also, threshold, attrMatch, order[k + 1..], if w && limit != 0 then limit - 1 else limit)
  {
    assert order[k..][1..] == order[k + 1..];
    var w := Wanted(db, noMatch, n, bloom, also, threshold, attrMatch, order[k]);
    var rest := Step2(db, noMatch, n, bloom, also, threshold, attrMatch, order[k + 1..], if w && limit != 0 then limit - 1 else limit);
    if w && limit != 1 {
      assert found + ([order[k].id] + rest) == (found + [order[k].id]) + rest;
    }
  }


  /** The body of the `_doDataObjectQueryStep2` loop for one row: the id is
   *  added when the row is wanted, and `full` says the maximum is reached. */
  method Step2One(db: Tables, noMatch: nat, n: NodeRow, bloom: set<string>, also: set<string>,
                  threshold: nat, attrMatch: nat, order: seq<DataObjectRow>, k: nat, maxMatches: nat,
                  found: seq<string>) returns (found': seq<string>, full: bool)
    requires k < |order| && (maxMatches == 0 || |found| < maxMatches)
    ensures var w := Wanted(db, noMatch, n, bloom, also, threshold, attrMatch, order[k]);
      var limit := if maxMatches == 0 then 0 else maxMatches - |found|;
      var all := found + Step2(db, noMatch, n, bloom, also, threshold, attrMatch, order[k..], limit);
      (full ==> all == found')
      && (!full ==>
            (maxMatches == 0 || |found'| < maxMatches)
            && all == found' + Step2(db, noMatch, n, bloom, also, threshold, attrMatch, order[k + 1..],
                                     if maxMatches == 0 then 0 else maxMatches - |found'|))
  {
    Step2Step(db, noMatch, n, bloom, also, threshold, attrMatch, order, k,
              if maxMatches == 0 then 0 else maxMatches - |found|, found);
    found', full := found, false;
    var d := order[k];
    if Matches(db, noMatch, n, d, threshold, attrMatch) {
      if !(d.id in bloom || d.id in also) {
        found' := found + [d.id];
        full := maxMatches != 0 && |found'| >= maxMatches;
      }
    }
  }

  /** What `_doDataObjectQueryStep2` adds for a query node: nothing when the
   *  node has no row, the selected data objects otherwise. */
  function NodeStep2(db: Tables, noMatch: nat, q: QueryNode, also: set<string>, threshold: nat,
                     attrMatch: nat, order: seq<DataObjectRow>, limit: nat): (ids: seq<string>)
    ensures limit > 0 ==> |ids| <= limit
  {
    match FindNode(db.nodes, q.id)
    case None => []
    case Some(n) => Step2(db, noMatch, n, q.bloom, also, threshold, attrMatch, order, limit)
  }

  /** The loop of `_doDataObjectForNodesQuery` over the secondary nodes, as
   *  the data objects it adds: each node is queried with the primary node's
   *  bloomfilter and threshold, and, when the primary node has a maximum,
   *  with what is left of it, until nothing is left. */
  function ForNodes(db: Tables, noMatch: nat, primary: QueryNode, nodes: seq<QueryNode>,
                    orders: seq<seq<DataObjectRow>>, attrMatch: nat, k: nat, left: nat): (ids: seq<string>)
    requires |orders| == |nodes| && k <= |nodes|
    ensures primary.maxMatches > 0 ==> |ids| <= left
    decreases |nodes| - k
  {
    if k == |nodes| || (primary.maxMatches > 0 && left == 0) then []
    else
      var limit := if primary.maxMatches > 0 then left else 0;
      var found := NodeStep2(db, noMatch, nodes[k], primary.bloom, primary.threshold, attrMatch, orders[k], limit);
      found + ForNodes(db, noMatch, primary, nodes, orders, attrMatch, k + 1,
                       if primary.maxMatches > 0 then left - |found| else left)
  }

  /** One secondary node's step of `ForNodes`, after the results `found`
   *  gathered before it. */
  lemma ForNodesStep(db: Tables, noMatch: nat, primary: QueryNode, nodes: seq<QueryNode>,
                     orders: seq<seq<DataObjectRow>>, attrMatch: nat, k: nat, left: nat,
                     found: seq<string>, more: seq<string>)
    requires |orders| == |nodes| && k < |nodes| && !(primary.maxMatches > 0 && left == 0)
    requires primary.maxMatches == 0 ==> left == 0
    requires more == NodeStep2(db, noMatch, nodes[k], primary.bloom, primary.threshold, attrMatch, orders[k], left)
    ensures primary.maxMatches > 0 ==> |more| <= left
    ensures found + ForNodes(db, noMatch, primary, nodes, orders, attrMatch, k, left)
            == (found + more) + ForNodes(db, noMatch, primary, nodes, orders, attrMatch, k + 1,
                                         if primary.maxMatches > 0 then left - |more| else left)
  {
    var rest := ForNodes(db, noMatch, primary, nodes, orders, attrMatch, k + 1,
                         if primary.maxMatches > 0 then left - |more| else left);
    assert ForNodes(db, noMatch, primary, nodes, orders, attrMatch, k, left) == more + rest;
    assert (found + more) + rest == found + (more + rest);
  }

  /** As written, `_doDataObjectForNodesQuery` returns the count of the last
   *  secondary node queried and posts the result only when that count is not
   *  zero. */
  function ForNodesCountAsWritten(counts: seq<nat>): (n: nat)
    ensures counts == [] ==> n == 0
    ensures counts != [] ==> n == counts[|counts| - 1]
  {
    if counts == [] then 0 else counts[|counts| - 1]
  }

  /** The count of every data object added to the query result. */
  function ForNodesCount(counts: seq<nat>): (n: nat)
    ensures n == 0 <==> forall k :: 0 <= k < |counts| ==> counts[k] == 0
    ensures forall k :: 0 <= k < |counts| ==> counts[k] <= n
  {
    if counts == [] then 0
    else
      var rest := ForNodesCount(counts[1..]);
      assert forall k :: 1 <= k < |counts| ==> counts[k] == counts[1..][k - 1];
      counts[0] + rest
  }

  /** Two secondary nodes, the first matching two data objects and the last
   *  none: as written the query reports 0 and drops the two results. */
  lemma ForNodesDropsEarlierMatches()
    ensures ForNodesCountAsWritten([2, 0]) == 0
    ensures ForNodesCount([2, 0]) == 2
  {
  }

  // ---------------------------------------------------------------------------
  // Data object to nodes

  /** Only peers and gateways are targets of a node query. */
  predicate IsTarget(t: NodeType)
  {
    t == Peer || t == Gateway
  }

  /** The nodes `_doNodeQuery` adds: the rows of the rated data-object-to-node
   *  view in its order that match with the ratio and attribute count asked
   *  for, the first `room` of them when the query is `limited` (the LIMIT
   *  clause), of which only peers and gateways are kept. */
  function Targets(db: Tables, noMatch: nat, d: DataObjectRow, order: seq<NodeRow>, ratio: nat,
                   attrMatch: nat, limited: bool, room: nat): (ids: seq<string>)
    ensures |ids| <= |order| && (limited ==> |ids| <= room)
    decreases |order|
  {
    if order == [] || (limited && room == 0) then []
    else if Matches(db, noMatch, order[0], d, ratio, attrMatch) then
      (if IsTarget(order[0].nodeType) then [order[0].id] else [])
      + Targets(db, noMatch, d, order[1..], ratio, attrMatch, limited, if limited then room - 1 else room)
    else Targets(db, noMatch, d, order[1..], ratio, attrMatch, limited, room)
  }

  /** One row of the `_doNodeQuery` loop, after the ids `found` reported
   *  before it. */
  lemma TargetsStep(db: Tables, noMatch: nat, d: DataObjectRow, order: seq<NodeRow>, ratio: nat,
                    attrMatch: nat, limited: bool, k: nat, room: nat, found: seq<string>)
    requires k < |order| && !(limited && room == 0)
    ensures var m := Matches(db, noMatch, order[k], d, ratio, attrMatch);
      found + Targets(db, noMatch, d, order[k..], ratio, attrMatch, limited, room)
      == (if m && IsTarget(order[k].nodeType) then found + [order[k].id] else found)
         + Targets(db, noMatch, d, order[k + 1..], ratio, attrMatch, limited, if m && limited then room - 1 else room)
  {
    assert order[k..][1..] == order[k + 1..];
    var m := Matches(db, noMatch, order[k], d, ratio, attrMatch);
    var here: seq<string> := if m && IsTarget(order[k].nodeType) then [order[k].id] else [];
    var rest := Targets(db, noMatch, d, order[k + 1..], ratio, attrMatch, limited, if m && limited then room - 1 else room);
    assert found + (here + rest) == (if m && IsTarget(order[k].nodeType) then found + [order[k].id] else found) + rest;
  }

  /** Every node reported is a peer or gateway of the view matching the data
   *  object; without a LIMIT, every such node is reported. */
  lemma {:induction false} TargetsListed(db: Tables, noMatch: nat, d: DataObjectRow, order: seq<NodeRow>, ratio: nat,
                                       attrMatch: nat, limited: bool, room: nat)
    ensures forall x :: x in Targets(db, noMatch, d, order, ratio, attrMatch, limited, room) ==>
      exists n :: n in order && n.id == x && IsTarget(n.nodeType) && Matches(db, noMatch, n, d, ratio, attrMatch)
    ensures !limited ==> forall n :: n in order && IsTarget(n.nodeType) && Matches(db, noMatch, n, d, ratio, attrMatch) ==>
      n.id in Targets(db, noMatch, d, order, ratio, attrMatch, limited, room)
    decreases |order|
  {
    if order != [] && !(limited && room == 0) {
      var m := Matches(db, noMatch, order[0], d, ratio, attrMatch);
      var room' := if m && limited then room - 1 else room;
      var here := if m && IsTarget(order[0].nodeType) then [order[0].id] else [];
      var rest := Targets(db, noMatch, d, order[1..], ratio, attrMatch, limited, room');
      assert Targets(db, noMatch, d, order, ratio, attrMatch, limited, room) == here + rest;
      TargetsListed(db, noMatch, d, order[1..], ratio, attrMatch, limited, room');
      forall x | x in here + rest
        ensures exists n :: n in order && n.id == x && IsTarget(n.nodeType) && Matches(db, noMatch, n, d, ratio, attrMatch)
      {
        if x in here {
          assert order[0] in order;
        } else {
          assert x in rest;
          var n :| n in order[1..] && n.id == x && IsTarget(n.nodeType) && Matches(db, noMatch, n, d, ratio, attrMatch);
          assert n in order;
        }
      }
      assert forall n :: n in order ==> n == order[0] || n in order[1..];
    }
  }

  /** Over the view of the stored nodes: every node reported is a stored
   *  peer or gateway matching the data object; without a LIMIT, every such
   *  stored node is reported. */
  lemma TargetsSpec(db: Tables, noMatch: nat, d: DataObjectRow, order: seq<NodeRow>, ratio: nat,
                    attrMatch: nat, limited: bool, room: nat)
    requires ListsRows(order, db.nodes)
    ensures forall x :: x in Targets(db, noMatch, d, order, ratio, attrMatch, limited, room) ==>
      exists n :: n in db.nodes && n.id == x && IsTarget(n.nodeType) && Matches(db, noMatch, n, d, ratio, attrMatch)
    ensures !limited ==> forall n :: n in db.nodes && IsTarget(n.nodeType) && Matches(db, noMatch, n, d, ratio, attrMatch) ==>
      n.id in Targets(db, noMatch, d, order, ratio, attrMatch, limited, room)
  {
    TargetsListed(db, noMatch, d, order, ratio, attrMatch, limited, room);
    ListedAreStored(order, db.nodes);
  }

  // ---------------------------------------------------------------------------
  // The repository

  /** The repository after `_insertRepository`: the entries with the
   *  authority and key (or, for an id, the entry with that row id and
   *  authority) are updated when one with the authority and key exists;
   *  otherwise a new entry is appended. */
  function InsertedRepository(db: Tables, id: nat, authority: string, key: string, value: string): Tables
  {
    if HasEntry(db.repository, authority, key) then
      db.(repository := UpdateRepository(db.repository, id, authority, key, value))
    else
      db.(repository := db.repository + [RepositoryRow(db.next, authority, key, value)], next := db.next + 1)
  }

  /** Without an id, the insert is an upsert: afterwards the authority and
   *  key have an entry, every entry for them holds the new value, and
   *  every entry for another authority or key is unchanged. */
  lemma RepositoryUpsert(db: Tables, authority: string, key: string, value: string)
    ensures var rows := InsertedRepository(db, 0, authority, key, value).repository;
      HasEntry(rows, authority, key)
      && (forall r :: r in rows && r.authority == authority && r.key == key ==> r.value == value)
      && (forall r :: r in db.repository && !(r.authority == authority && r.key == key) ==> r in rows)
  {
    var rows := InsertedRepository(db, 0, authority, key, value).repository;
    if HasEntry(db.repository, authority, key) {
      var r0 :| r0 in db.repository && r0.authority == authority && r0.key == key;
      var i :| 0 <= i < |db.repository| && db.repository[i] == r0;
      assert rows[i] in rows;
      forall r | r in rows && r.authority == authority && r.key == key ensures r.value == value {
        var j :| 0 <= j < |rows| && rows[j] == r;
      }
      forall r | r in db.repository && !(r.authority == authority && r.key == key) ensures r in rows {
        var j :| 0 <= j < |db.repository| && db.repository[j] == r;
        assert rows[j] == r;
      }
    } else {
      assert rows[|rows| - 1] in rows;
    }
  }

  // ---------------------------------------------------------------------------
  // The data store

  class DataStore {
    /** The database. */
    var db: Tables
    /** Everything posted to the kernel, oldest first. */
    var events: seq<StoreEvent>
    /** ATTR_WEIGHT_NO_MATCH: a node attribute with this weight excludes the
     *  data objects that have it. */
    const noMatch: nat

    ghost predicate Valid()
      reads this
    {
      SQLTables.Valid(db)
    }

    constructor (noMatch: nat)
      ensures Valid() && db == Empty && events == [] && this.noMatch == noMatch
    {
      db := Empty;
      events := [];
      this.noMatch := noMatch;
      EmptyIsValid();
    }

    /** The attribute loop of the three inserts: each attribute's row is
     *  inserted (or the existing row's id taken on the UNIQUE conflict) and
     *  then linked to the owner. */
    method LinkAttributes(kind: Kind, owner: nat, attrs: seq<Attribute>)
      modifies this`db
      ensures db == LinkAll(old(db), kind, owner, attrs)
    {
      var start := db;
      var t := start;
      var k := 0;
      while k < |attrs|
        invariant 0 <= k <= |attrs|
        invariant t == LinkAll(start, kind, owner, attrs[..k])
      {
        var a := attrs[k];
        var (t2, attrRowid) := InsertAttribute(t, a.name, a.value);
        LinkAllStep(start, kind, owner, attrs, k);
        t := AddLink(t2, kind, owner, attrRowid, a.weight);
        k := k + 1;
      }
      assert attrs[..k] == attrs;
      db := t;
    }

    /** The loop of `evaluateDataObjects`: the ids of the data objects
     *  matching the filter of an event type, stopping at ten. */
    method CollectEventMatches(eventType: int, order: seq<DataObjectRow>) returns (found: seq<string>)
      ensures found == EventMatches(db, eventType, order, MaxEvaluated)
    {
      var t := db;
      ghost var all := EventMatches(t, eventType, order, MaxEvaluated);
      found := [];
      var k := 0;
      while k < |order| && |found| < MaxEvaluated
        invariant 0 <= k <= |order| && |found| <= MaxEvaluated
        invariant found + EventMatches(t, eventType, order[k..], MaxEvaluated - |found|) == all
      {
        found := EventMatchOne(t, eventType, order, k, MaxEvaluated - |found|, found);
        k := k + 1;
      }
      assert EventMatches(t, eventType, order[k..], MaxEvaluated - |found|) == [];
      assert found + [] == found;
    }

    /** `evaluateDataObjects`: the data objects matching the filter of an
     *  event type, at most ten, reported in one event when there are any. */
    method EvaluateDataObjects(eventType: int, order: seq<DataObjectRow>) returns (n: nat)
      requires ListsRows(order, db.dataObjects)
      modifies this`events
      ensures var ids := EventMatches(db, eventType, order, MaxEvaluated);
        n == |ids| && n <= MaxEvaluated
        && events == old(events) + if ids == [] then [] else [FilterMatch(eventType, ids)]
    {
      var found := CollectEventMatches(eventType, order);
      if |found| > 0 {
        events := events + [FilterMatch(eventType, found)];
      }
      n := |found|;
    }

    /** `evaluateFilters`: one event per filter matching the data object,
     *  each carrying that object. */
    method EvaluateFilters(d: DataObjectRow, order: seq<FilterRow>) returns (n: nat)
      requires ListsRows(order, db.filters)
      modifies this`events
      ensures events == old(events) + FilterEvents(db, order, d) && n == |FilterEvents(db, order, d)|
    {
      n := 0;
      var k := 0;
      while k < |order|
        invariant 0 <= k <= |order|
        invariant events + FilterEvents(db, order[k..], d) == old(events) + FilterEvents(db, order, d)
        invariant n + |FilterEvents(db, order[k..], d)| == |FilterEvents(db, order, d)|
      {
        assert order[k..][1..] == order[k + 1..];
        if FilterMatches(db, order[k], d) {
          events := events + [FilterMatch(order[k].event, [d.id])];
          n := n + 1;
        }
        k := k + 1;
      }
    }

    /** `_insertFilter`: a filter with the same event type is deleted and the
     *  insert repeated; the filter row is inserted, its attributes linked,
     *  the callback event posted when there is a callback, and, when asked,
     *  the stored data objects matched against it. Returns the filter's row
     *  id. */
    method InsertFilter(f: Filter, matchFilter: bool, hasCallback: bool, order: seq<DataObjectRow>)
      returns (r: int)
      requires Valid() && ListsRows(order, db.dataObjects)
      modifies this`db, this`events
      ensures Valid() && db == InsertedFilter(old(db), f) && r == old(db).next
      ensures var ids := EventMatches(db, f.event, order, MaxEvaluated);
        events == old(events) + (if hasCallback then [FilterInserted(f.event)] else [])
                   + (if matchFilter && ids != [] then [FilterMatch(f.event, ids)] else [])
      decreases if FindFilter(db.filters, f.event).Some? then 1 else 0
    {
      var existing := FindFilter(db.filters, f.event);
      if existing.Some? {
        ClearedFilterFacts(db, f.event);
        db := DeleteFilter(db, existing.value.rowid);
        assert ClearedFilter(db, f.event) == db;
        assert db.dataObjects == old(db).dataObjects;
        r := InsertFilter(f, matchFilter, hasCallback, order);
        return;
      }
      r := AddFilter(f, matchFilter, hasCallback, order);
    }

    /** The insert of `_insertFilter` once no filter has the event type. */
    method AddFilter(f: Filter, matchFilter: bool, hasCallback: bool, order: seq<DataObjectRow>)
      returns (r: int)
      requires Valid() && FindFilter(db.filters, f.event).None? && ListsRows(order, db.dataObjects)
      modifies this`db, this`events
      ensures Valid() && db == InsertedFilter(old(db), f) && r == old(db).next
      ensures var ids := EventMatches(db, f.event, order, MaxEvaluated);
        events == old(events) + (if hasCallback then [FilterInserted(f.event)] else [])
                   + (if matchFilter && ids != [] then [FilterMatch(f.event, ids)] else [])
    {
      InsertedFilterValid(db, f);
      var rowid := db.next;
      db := NewFilterRow(db, f.event);
      LinkFilterKeepsDataObjects(db, rowid, f.attrs);
      LinkAttributes(FilterKind, rowid, f.attrs);
      if hasCallback {
        events := events + [FilterInserted(f.event)];
      }
      if matchFilter {
        var n := EvaluateDataObjects(f.event, order);
      }
      r := rowid;
    }

    /** The interface loop of `_insertNode`: an interface already stored is
     *  skipped. */
    method InsertNodeInterfaces(ifaces: seq<Iface>, nodeRowid: nat)
      modifies this`db
      ensures db == InsertInterfaces(old(db), ifaces, nodeRowid)
    {
      ghost var base := db;
      var k := 0;
      while k < |ifaces|
        invariant 0 <= k <= |ifaces|
        invariant db == InsertInterfaces(base, ifaces[..k], nodeRowid)
      {
        db := InsertInterface(db, ifaces[k], nodeRowid);
        assert ifaces[..k + 1][..k] == ifaces[..k];
        k := k + 1;
      }
      assert ifaces[..k] == ifaces;
    }

    /** `_insertNode`: -1 for a node without a node description or of
     *  undefined type, which are not stored; otherwise a node with the same
     *  id is deleted and the insert repeated, the node row inserted with its
     *  attributes and interfaces, the callback event posted when there is a
     *  callback, and 1 returned. */
    method InsertNode(n: Node, hasCallback: bool) returns (r: int)
      requires Valid()
      modifies this`db, this`events
      ensures Valid()
      ensures r == -1 <==> !n.hasDescription || n.nodeType == Undefined
      ensures r == -1 ==> db == old(db) && events == old(events)
      ensures r != -1 ==>
        r == 1 && db == InsertedNode(old(db), n) && events == old(events) + if hasCallback then [NodeInserted(n.id)] else []
      decreases if FindNode(db.nodes, n.id).Some? then 1 else 0
    {
      if !n.hasDescription || n.nodeType == Undefined {
        return -1;
      }
      var existing := FindNode(db.nodes, n.id);
      if existing.Some? {
        ClearedNodeFacts(db, n.id);
        db := DeleteNode(db, existing.value.rowid);
        assert ClearedNode(db, n.id) == db;
        r := InsertNode(n, hasCallback);
        return;
      }
      InsertedNodeValid(db, n);
      var rowid := db.next;
      db := NewNodeRow(db, n.nodeType, n.id, n.maxMatches, n.threshold);
      LinkAttributes(NodeKind, rowid, n.attrs);
      InsertNodeInterfaces(n.ifaces, rowid);
      if hasCallback {
        events := events + [NodeInserted(n.id)];
      }
      r := 1;
    }

    /** `_deleteDataObject(id, shouldReportRemoval)`: when the removal is to
     *  be reported and no row has the id, -1 and nothing else; otherwise the
     *  deletion is reported when asked, the row (and by the trigger its
     *  links) deleted, and 0 returned. */
    method DeleteDataObjectById(id: string, report: bool) returns (r: int)
      requires Valid()
      modifies this`db, this`events
      ensures Valid()
      ensures r == -1 <==> report && FindDataObject(old(db).dataObjects, id).None?
      ensures r == 0 || r == -1
      ensures r == -1 ==> db == old(db) && events == old(events)
      ensures r == 0 ==> events == old(events) + (if report then [DataObjectDeleted(id)] else [])
      ensures r == 0 ==> forall d :: d in db.dataObjects <==> d in old(db).dataObjects && d.id != id
      ensures r == 0 ==> db == DeletedById(old(db), id)
    {
      var found := FindDataObject(db.dataObjects, id);
      if report {
        if found.None? {
          return -1;
        }
        events := events + [DataObjectDeleted(id)];
      }
      if found.Some? {
        DeleteDataObjectKeepsValid(db, found.value.rowid);
        db := DeleteDataObject(db, found.value.rowid);
      }
      r := 0;
    }

    /** `_deleteDataObject(dObj, shouldReportRemoval)`: deletes by id, and
     *  reports the deletion when asked; always 0. */
    method DeleteDataObjectRef(id: string, report: bool) returns (r: int)
      requires Valid()
      modifies this`db, this`events
      ensures Valid() && r == 0 && db == DeletedById(old(db), id)
      ensures forall d :: d in db.dataObjects <==> d in old(db).dataObjects && d.id != id
      ensures events == old(events) + (if report then [DataObjectDeleted(id)] else [])
    {
      var ret := DeleteDataObjectById(id, false);
      if ret == 0 && report {
        events := events + [DataObjectDeleted(id)];
      }
      r := 0;
    }

    /** `_insertDataObject`: a data object whose id is stored already is
     *  marked duplicate and reported to the callback, with no row added;
     *  otherwise its row and attribute links are inserted, the filters
     *  evaluated against it, a non-persistent object deleted again, and the
     *  callback event posted. Always 0 (the SQLite failures are not
     *  modelled). */
    method InsertDataObject(o: DObj, hasCallback: bool, order: seq<FilterRow>) returns (r: int, duplicate: bool)
      requires Valid() && ListsRows(order, db.filters)
      modifies this`db, this`events
      ensures Valid() && r == 0 && db == InsertedDataObject(old(db), o)
      ensures duplicate <==> FindDataObject(old(db).dataObjects, o.id).Some?
      ensures duplicate ==> events == old(events) + if hasCallback then [DataObjectInserted(o.id)] else []
      ensures !duplicate ==>
        var s := StoredDataObject(old(db), o);
        FindDataObject(s.dataObjects, o.id).Some?
        && events == old(events) + FilterEvents(s, order, FindDataObject(s.dataObjects, o.id).value)
                     + if hasCallback then [DataObjectInserted(o.id)] else []
    {
      if FindDataObject(db.dataObjects, o.id).Some? {
        if hasCallback {
          events := events + [DataObjectInserted(o.id)];
        }
        return 0, true;
      }
      duplicate := false;
      StoredDataObjectValid(db, o);
      ghost var stored := StoredDataObject(db, o);
      var rowid := db.next;
      db := NewDataObjectRow(db, o.id, StoredDataLen(o.dynamicLen, o.dataLen));
      LinkAttributes(DataObjectKind, rowid, o.attrs);
      assert db == stored;
      assert ListsRows(order, db.filters) by {
        LinkAllKeepsDataObjectRows(NewDataObjectRow(old(db), o.id, StoredDataLen(o.dynamicLen, o.dataLen)), rowid, o.attrs);
      }
      var row := FindDataObject(db.dataObjects, o.id).value;
      var n := EvaluateFilters(row, order);
      ghost var evaluated := events;
      if !o.persistent {
        var ret := DeleteDataObjectRef(o.id, false);
        assert events == evaluated + [] == evaluated;
      }
      assert db == InsertedDataObject(old(db), o);
      if hasCallback {
        events := events + [DataObjectInserted(o.id)];
      }
      r := 0;
    }

    /** `_doDataObjectQueryStep2`: the data objects matching a node, in the
     *  view's order, that neither the node's bloomfilter nor `also` holds,
     *  stopping at `maxMatches` unless it is 0; nothing for a node without a
     *  row. The number added is the length of the result. */
    method DataObjectQueryStep2(q: QueryNode, also: set<string>, maxMatches: nat, threshold: nat,
                                attrMatch: nat, order: seq<DataObjectRow>) returns (found: seq<string>)
      ensures found == NodeStep2(db, noMatch, q, also, threshold, attrMatch, order, maxMatches)
    {
      var row := FindNode(db.nodes, q.id);
      if row.None? {
        return [];
      }
      var n := row.value;
      ghost var all := Step2(db, noMatch, n, q.bloom, also, threshold, attrMatch, order, maxMatches);
      found := [];
      var k := 0;
      while k < |order|
        invariant 0 <= k <= |order| && (maxMatches == 0 || |found| < maxMatches)
        invariant found + Step2(db, noMatch, n, q.bloom, also, threshold, attrMatch, order[k..],
                                if maxMatches == 0 then 0 else maxMatches - |found|) == all
      {
        var full;
        found, full := Step2One(db, noMatch, n, q.bloom, also, threshold, attrMatch, order, k, maxMatches, found);
        if full {
          break;
        }
        k := k + 1;
      }
      if k == |order| {
        assert order[k..] == [] && found + [] == found;
      }
    }

    /** `_doDataObjectQuery`: the node's own maximum and threshold; the
     *  result, headed by the node, is posted only when something matched. */
    method DataObjectQuery(q: QueryNode, attrMatch: nat, order: seq<DataObjectRow>) returns (n: nat)
      requires ListsRows(order, db.dataObjects)
      modifies this`events
      ensures var found := NodeStep2(db, noMatch, q, {}, q.threshold, attrMatch, order, q.maxMatches);
        n == |found| && (q.maxMatches > 0 ==> n <= q.maxMatches)
        && events == old(events) + if found == [] then [] else [QueryResult([q.id], found)]
    {
      var found := DataObjectQueryStep2(q, {}, q.maxMatches, q.threshold, attrMatch, order);
      if |found| > 0 {
        events := events + [QueryResult([q.id], found)];
      }
      n := |found|;
    }

    /** The loop of `_doDataObjectForNodesQuery`: the secondary nodes are
     *  queried in turn with the primary node's bloomfilter and threshold and
     *  with what is left of the primary node's maximum, stopping when it is
     *  used up. */
    method CollectForNodes(primary: QueryNode, nodes: seq<QueryNode>, attrMatch: nat,
                           orders: seq<seq<DataObjectRow>>) returns (found: seq<string>)
      requires |orders| == |nodes|
      ensures found == ForNodes(db, noMatch, primary, nodes, orders, attrMatch, 0, primary.maxMatches)
    {
      var left: nat := primary.maxMatches;
      var hasMaximum := left > 0;
      ghost var all := ForNodes(db, noMatch, primary, nodes, orders, attrMatch, 0, primary.maxMatches);
      found := [];
      var k := 0;
      while k < |nodes| && !(hasMaximum && left == 0)
        invariant 0 <= k <= |nodes|
        invariant hasMaximum == (primary.maxMatches > 0) && (!hasMaximum ==> left == 0)
        invariant found + ForNodes(db, noMatch, primary, nodes, orders, attrMatch, k, left) == all
      {
        var more := DataObjectQueryStep2(nodes[k], primary.bloom, left, primary.threshold, attrMatch, orders[k]);
        ForNodesStep(db, noMatch, primary, nodes, orders, attrMatch, k, left, found, more);
        found := found + more;
        if hasMaximum {
          left := left - |more|;
        }
        k := k + 1;
      }
    }

    /** `_doDataObjectForNodesQuery`: the data objects the secondary nodes
     *  match, posted in one result headed by the primary node when there are
     *  any, and their number returned. */
    method DataObjectForNodesQuery(primary: QueryNode, nodes: seq<QueryNode>, attrMatch: nat,
                                   orders: seq<seq<DataObjectRow>>) returns (total: nat)
      requires |orders| == |nodes| && forall k :: 0 <= k < |orders| ==> ListsRows(orders[k], db.dataObjects)
      modifies this`events
      ensures var found := ForNodes(db, noMatch, primary, nodes, orders, attrMatch, 0, primary.maxMatches);
        total == |found| && (primary.maxMatches > 0 ==> total <= primary.maxMatches)
        && events == old(events) + if found == [] then [] else [QueryResult([primary.id], found)]
    {
      var found := CollectForNodes(primary, nodes, attrMatch, orders);
      if |found| > 0 {
        events := events + [QueryResult([primary.id], found)];
      }
      total := |found|;
    }

    /** The loop of `_doNodeQuery` over the rows the LIMIT lets through:
     *  every row counts against the limit, and peers and gateways are
     *  added. */
    method CollectTargets(d: DataObjectRow, ratio: nat, attrMatch: nat, maxResp: nat, order: seq<NodeRow>)
      returns (found: seq<string>)
      ensures found == Targets(db, noMatch, d, order, ratio, attrMatch, maxResp > 0, maxResp)
    {
      var limited := maxResp > 0;
      ghost var all := Targets(db, noMatch, d, order, ratio, attrMatch, limited, maxResp);
      found := [];
      var rows := 0;
      var k := 0;
      while k < |order| && !(limited && rows == maxResp)
        invariant 0 <= k <= |order| && (limited ==> rows <= maxResp)
        invariant found + Targets(db, noMatch, d, order[k..], ratio, attrMatch, limited, if limited then maxResp - rows else maxResp) == all
      {
        TargetsStep(db, noMatch, d, order, ratio, attrMatch, limited, k, if limited then maxResp - rows else maxResp, found);
        var nd := order[k];
        if Matches(db, noMatch, nd, d, ratio, attrMatch) {
          rows := rows + 1;
          if IsTarget(nd.nodeType) {
            found := found + [nd.id];
          }
        }
        k := k + 1;
      }
      assert k == |order| ==> order[k..] == [];
    }

    /** `_doNodeQuery`: the peers and gateways matching a stored data object,
     *  from at most `maxResp` view rows when it is not 0; the result, headed
     *  by the data object, is posted only when a node was found. A data
     *  object without a row matches nothing. */
    method NodeQuery(dObjId: string, ratio: nat, attrMatch: nat, maxResp: nat, order: seq<NodeRow>)
      returns (n: nat)
      requires ListsRows(order, db.nodes)
      modifies this`events
      ensures var found := match FindDataObject(db.dataObjects, dObjId)
                           case None => []
                           case Some(d) => Targets(db, noMatch, d, order, ratio, attrMatch, maxResp > 0, maxResp);
        n == |found| && (maxResp > 0 ==> n <= maxResp)
        && events == old(events) + if found == [] then [] else [QueryResult(found, [dObjId])]
    {
      var row := FindDataObject(db.dataObjects, dObjId);
      if row.None? {
        return 0;
      }
      var found := CollectTargets(row.value, ratio, attrMatch, maxResp, order);
      if |found| > 0 {
        events := events + [QueryResult(found, [dObjId])];
      }
      n := |found|;
    }

    /** `_insertRepository`: the entry with the authority and key is updated
     *  when one exists, otherwise inserted; always 1. */
    method InsertRepository(id: nat, authority: string, key: string, value: string) returns (r: int)
      requires Valid()
      modifies this`db
      ensures Valid() && r == 1 && db == InsertedRepository(old(db), id, authority, key, value)
    {
      if HasEntry(db.repository, authority, key) {
        db := db.(repository := UpdateRepository(db.repository, id, authority, key, value));
      } else {
        db := db.(repository := db.repository + [RepositoryRow(db.next, authority, key, value)], next := db.next + 1);
      }
      r := 1;
    }
  }
}
