/**
 * The data store's tables, triggers and views (SQLDataStore.cpp, the
 * CREATE TABLE, CREATE TRIGGER and CREATE VIEW commands).
 *
 * The database is a value of type Tables: one sequence of rows per table,
 * in insertion order, and a counter handing out row ids. The triggers
 * become the functions that insert or delete rows: inserting a link row
 * also bumps its owner's attribute count (and, for nodes, the sum of
 * weights); deleting a data object, node or filter also deletes its link
 * rows, and for a node its interfaces. The UNIQUE ... ON CONFLICT ROLLBACK
 * constraints become "the insert changes nothing". The views become
 * functions computing, for a node or a filter and a data object, the
 * numbers the matching queries compare.
 */
module SQLTables {
  import opened Wrappers
  import DataObject

  type Attribute = DataObject.Attribute

  /** ATTR_WILDCARD: a filter attribute with this value is similar to every
   *  stored attribute of the same name. */
  const Wildcard := "*"

  /** The node types a row records; only peers and gateways are node-query
   *  targets, and undefined nodes are never stored. */
  datatype NodeType = Undefined | ThisNode | Application | Peer | Gateway

  datatype AttrRow = AttrRow(rowid: nat, name: string, value: string)
  datatype DataObjectRow = DataObjectRow(rowid: nat, id: string, dataLen: int, numAttributes: nat)
  datatype NodeRow = NodeRow(rowid: nat, nodeType: NodeType, id: string, numAttributes: nat,
                             sumWeights: nat, maxMatches: nat, threshold: nat)
  datatype FilterRow = FilterRow(rowid: nat, event: int, numAttributes: nat)
  datatype InterfaceRow = InterfaceRow(rowid: nat, ifaceType: int, mac: string, nodeRowid: nat)
  /** A row of one of the three link tables: the owner (data object, node
   *  or filter) row id, the attribute row id and the weight (data object
   *  links carry none, stored as 0). */
  datatype Link = Link(owner: nat, attr: nat, weight: nat)
  datatype RepositoryRow = RepositoryRow(rowid: nat, authority: string, key: string, value: string)

  datatype Tables = Tables(
    attributes: seq<AttrRow>,
    dataObjects: seq<DataObjectRow>,
    nodes: seq<NodeRow>,
    filters: seq<FilterRow>,
    interfaces: seq<InterfaceRow>,
    dataObjectLinks: seq<Link>,
    nodeLinks: seq<Link>,
    filterLinks: seq<Link>,
    repository: seq<RepositoryRow>,
    next: nat)

  /** Which link table an attribute is linked through. */
  datatype Kind = DataObjectKind | NodeKind | FilterKind

  const Empty := Tables([], [], [], [], [], [], [], [], [], 0)

  // ---------------------------------------------------------------------------
  // Counting link rows

  /** The number of link rows of an owner. */
  function LinkCount(links: seq<Link>, owner: nat): nat
  {
    if links == [] then 0
    else LinkCount(links[..|links| - 1], owner) + (if links[|links| - 1].owner == owner then 1 else 0)
  }

  /** The sum of the weights of an owner's link rows. */
  function WeightSum(links: seq<Link>, owner: nat): nat
  {
    if links == [] then 0
    else WeightSum(links[..|links| - 1], owner) + (if links[|links| - 1].owner == owner then links[|links| - 1].weight else 0)
  }

  predicate HasLink(links: seq<Link>, owner: nat, attr: nat)
  {
    exists l :: l in links && l.owner == owner && l.attr == attr
  }

  function LinksOf(db: Tables, kind: Kind): seq<Link>
  {
    match kind
    case DataObjectKind => db.dataObjectLinks
    case NodeKind => db.nodeLinks
    case FilterKind => db.filterLinks
  }

  // ---------------------------------------------------------------------------
  // Invariants

  /** What the insert and delete triggers keep: every row's attribute count
   *  (and a node's sum of weights) equals that of its link rows. */
  ghost predicate CountersConsistent(db: Tables)
  {
    (forall d :: d in db.dataObjects ==> d.numAttributes == LinkCount(db.dataObjectLinks, d.rowid))
    && (forall n :: n in db.nodes ==>
          n.numAttributes == LinkCount(db.nodeLinks, n.rowid) && n.sumWeights == WeightSum(db.nodeLinks, n.rowid))
    && (forall f :: f in db.filters ==> f.numAttributes == LinkCount(db.filterLinks, f.rowid))
  }

  /** Every row id handed out so far is below the counter. */
  ghost predicate RowidsBelow(db: Tables)
  {
    (forall a :: a in db.attributes ==> a.rowid < db.next)
    && (forall d :: d in db.dataObjects ==> d.rowid < db.next)
    && (forall n :: n in db.nodes ==> n.rowid < db.next)
    && (forall f :: f in db.filters ==> f.rowid < db.next)
    && (forall l :: l in db.dataObjectLinks ==> l.owner < db.next)
    && (forall l :: l in db.nodeLinks ==> l.owner < db.next)
    && (forall l :: l in db.filterLinks ==> l.owner < db.next)
  }

  /** The UNIQUE constraints on attributes (name, value), data object ids,
   *  node ids and filter event types, and the row ids being keys. */
  ghost predicate Unique(db: Tables)
  {
    (forall a, b :: a in db.attributes && b in db.attributes && a.name == b.name && a.value == b.value ==> a == b)
    && (forall a, b :: a in db.dataObjects && b in db.dataObjects && a.id == b.id ==> a == b)
    && (forall a, b :: a in db.nodes && b in db.nodes && a.id == b.id ==> a == b)
    && (forall a, b :: a in db.filters && b in db.filters && a.event == b.event ==> a == b)
    && (forall a, b :: a in db.dataObjects && b in db.dataObjects && a.rowid == b.rowid ==> a == b)
    && (forall a, b :: a in db.nodes && b in db.nodes && a.rowid == b.rowid ==> a == b)
    && (forall a, b :: a in db.filters && b in db.filters && a.rowid == b.rowid ==> a == b)
  }

  ghost predicate Valid(db: Tables)
  {
    CountersConsistent(db) && RowidsBelow(db) && Unique(db)
  }

  lemma EmptyIsValid()
    ensures Valid(Empty)
  {
  }

  // ---------------------------------------------------------------------------
  // Lookups

  function FindAttribute(attrs: seq<AttrRow>, name: string, value: string): (r: Option<AttrRow>)
    ensures r.Some? ==> r.value in attrs && r.value.name == name && r.value.value == value
    ensures r.None? ==> forall a :: a in attrs ==> !(a.name == name && a.value == value)
  {
    if attrs == [] then None
    else if attrs[|attrs| - 1].name == name && attrs[|attrs| - 1].value == value then Some(attrs[|attrs| - 1])
    else
      var r := FindAttribute(attrs[..|attrs| - 1], name, value);
      assert attrs == attrs[..|attrs| - 1] + [attrs[|attrs| - 1]];
      r
  }

  function AttributeById(attrs: seq<AttrRow>, rowid: nat): (r: Option<AttrRow>)
    ensures r.Some? ==> r.value in attrs && r.value.rowid == rowid
    ensures r.None? ==> forall a :: a in attrs ==> a.rowid != rowid
  {
    if attrs == [] then None
    else if attrs[0].rowid == rowid then Some(attrs[0])
    else AttributeById(attrs[1..], rowid)
  }

  function FindDataObject(rows: seq<DataObjectRow>, id: string): (r: Option<DataObjectRow>)
    ensures r.Some? ==> r.value in rows && r.value.id == id
    ensures r.None? ==> forall d :: d in rows ==> d.id != id
  {
    if rows == [] then None
    else if rows[0].id == id then Some(rows[0])
    else FindDataObject(rows[1..], id)
  }

  function FindNode(rows: seq<NodeRow>, id: string): (r: Option<NodeRow>)
    ensures r.Some? ==> r.value in rows && r.value.id == id
    ensures r.None? ==> forall n :: n in rows ==> n.id != id
  {
    if rows == [] then None
    else if rows[0].id == id then Some(rows[0])
    else FindNode(rows[1..], id)
  }

  function FindFilter(rows: seq<FilterRow>, event: int): (r: Option<FilterRow>)
    ensures r.Some? ==> r.value in rows && r.value.event == event
    ensures r.None? ==> forall f :: f in rows ==> f.event != event
  {
    if rows == [] then None
    else if rows[0].event == event then Some(rows[0])
    else FindFilter(rows[1..], event)
  }

  // ---------------------------------------------------------------------------
  // Row identities

  function DataObjectKeys(rows: seq<DataObjectRow>): seq<(nat, string, int)>
  {
    seq(|rows|, i requires 0 <= i < |rows| => (rows[i].rowid, rows[i].id, rows[i].dataLen))
  }

  function NodeKeys(rows: seq<NodeRow>): seq<(nat, NodeType, string, nat, nat)>
  {
    seq(|rows|, i requires 0 <= i < |rows| =>
      (rows[i].rowid, rows[i].nodeType, rows[i].id, rows[i].maxMatches, rows[i].threshold))
  }

  function FilterKeys(rows: seq<FilterRow>): seq<(nat, int)>
  {
    seq(|rows|, i requires 0 <= i < |rows| => (rows[i].rowid, rows[i].event))
  }

  /** The same rows, in the same order, with at most their counters
   *  changed; interfaces and repository untouched. */
  ghost predicate SameRows(db: Tables, db': Tables)
  {
    DataObjectKeys(db'.dataObjects) == DataObjectKeys(db.dataObjects)
    && NodeKeys(db'.nodes) == NodeKeys(db.nodes)
    && FilterKeys(db'.filters) == FilterKeys(db.filters)
    && db'.interfaces == db.interfaces && db'.repository == db.repository
  }

  // ---------------------------------------------------------------------------
  // Inserting attributes and links (the insert triggers)

  /** `INSERT INTO attributes`, and on the UNIQUE (name, value) conflict the
   *  row id of the row already there: the tables and the attribute row id
   *  the link then uses. */
  function InsertAttribute(db: Tables, name: string, value: string): (r: (Tables, nat))
  {
    match FindAttribute(db.attributes, name, value)
    case Some(a) => (db, a.rowid)
    case None => (db.(attributes := db.attributes + [AttrRow(db.next, name, value)], next := db.next + 1), db.next)
  }

  /** An attribute row is reused when one with the same name and value
   *  exists and appended otherwise; afterwards exactly one row has that
   *  name and value, and its row id is the one returned. */
  lemma InsertAttributeUnique(db: Tables, name: string, value: string)
    requires Valid(db)
    ensures var (db', rowid) := InsertAttribute(db, name, value);
      Valid(db') && db'.next >= db.next
      && (FindAttribute(db.attributes, name, value).Some? ==> db' == db)
      && (FindAttribute(db.attributes, name, value).None? ==>
            db' == db.(attributes := db.attributes + [AttrRow(db.next, name, value)], next := db.next + 1))
      && AttrRow(rowid, name, value) in db'.attributes
      && forall a :: a in db'.attributes && a.name == name && a.value == value ==> a.rowid == rowid
  {
    var (db', rowid) := InsertAttribute(db, name, value);
    if FindAttribute(db.attributes, name, value).None? {
      forall l | l in db'.dataObjectLinks ensures LinkCount(db'.dataObjectLinks, l.owner) == LinkCount(db.dataObjectLinks, l.owner) {
      }
    }
  }

  function BumpDataObject(rows: seq<DataObjectRow>, rowid: nat): seq<DataObjectRow>
  {
    seq(|rows|, i requires 0 <= i < |rows| =>
      if rows[i].rowid == rowid then rows[i].(numAttributes := rows[i].numAttributes + 1) else rows[i])
  }

  function BumpNode(rows: seq<NodeRow>, rowid: nat, weight: nat): seq<NodeRow>
  {
    seq(|rows|, i requires 0 <= i < |rows| =>
      if rows[i].rowid == rowid
      then rows[i].(numAttributes := rows[i].numAttributes + 1, sumWeights := rows[i].sumWeights + weight)
      else rows[i])
  }

  function BumpFilter(rows: seq<FilterRow>, rowid: nat): seq<FilterRow>
  {
    seq(|rows|, i requires 0 <= i < |rows| =>
      if rows[i].rowid == rowid then rows[i].(numAttributes := rows[i].numAttributes + 1) else rows[i])
  }

  /** Inserting a link row: refused by the UNIQUE (owner, attribute)
   *  constraint when the pair is linked already; otherwise appended, and the
   *  insert trigger bumps the owner's counters. */
  function AddLink(db: Tables, kind: Kind, owner: nat, attr: nat, weight: nat): (db': Tables)
  {
    if HasLink(LinksOf(db, kind), owner, attr) then db
    else match kind
      case DataObjectKind =>
        db.(dataObjectLinks := db.dataObjectLinks + [Link(owner, attr, 0)],
            dataObjects := BumpDataObject(db.dataObjects, owner))
      case NodeKind =>
        db.(nodeLinks := db.nodeLinks + [Link(owner, attr, weight)],
            nodes := BumpNode(db.nodes, owner, weight))
      case FilterKind =>
        db.(filterLinks := db.filterLinks + [Link(owner, attr, weight)],
            filters := BumpFilter(db.filters, owner))
  }

  lemma LinkCountAppend(links: seq<Link>, l: Link, owner: nat)
    ensures LinkCount(links + [l], owner) == LinkCount(links, owner) + (if l.owner == owner then 1 else 0)
    ensures WeightSum(links + [l], owner) == WeightSum(links, owner) + (if l.owner == owner then l.weight else 0)
  {
    assert (links + [l])[..|links|] == links;
  }

  /** Adding a link keeps the counters equal to the link rows, links the
   *  pair, and appends at most one row to that link table alone. */
  lemma AddLinkKeepsValid(db: Tables, kind: Kind, owner: nat, attr: nat, weight: nat)
    requires Valid(db) && owner < db.next
    ensures var db' := AddLink(db, kind, owner, attr, weight);
      Valid(db') && db'.next == db.next && db'.attributes == db.attributes && SameRows(db, db')
      && HasLink(LinksOf(db', kind), owner, attr)
      && (LinksOf(db', kind) == LinksOf(db, kind) || exists l :: LinksOf(db', kind) == LinksOf(db, kind) + [l])
  {
    var db' := AddLink(db, kind, owner, attr, weight);
    assert DataObjectKeys(db'.dataObjects) == DataObjectKeys(db.dataObjects);
    assert NodeKeys(db'.nodes) == NodeKeys(db.nodes);
    assert FilterKeys(db'.filters) == FilterKeys(db.filters);
    if !HasLink(LinksOf(db, kind), owner, attr) {
      match kind
      case DataObjectKind =>
        DataObjectLinkAdded(db, Link(owner, attr, 0));
        assert Link(owner, attr, 0) in LinksOf(AddLink(db, kind, owner, attr, weight), kind);
      case NodeKind =>
        NodeLinkAdded(db, Link(owner, attr, weight));
        assert Link(owner, attr, weight) in LinksOf(AddLink(db, kind, owner, attr, weight), kind);
      case FilterKind =>
        FilterLinkAdded(db, Link(owner, attr, weight));
        assert Link(owner, attr, weight) in LinksOf(AddLink(db, kind, owner, attr, weight), kind);
    }
  }

  lemma DataObjectLinkAdded(db: Tables, l: Link)
    requires Valid(db) && l.owner < db.next
    ensures Valid(db.(dataObjectLinks := db.dataObjectLinks + [l], dataObjects := BumpDataObject(db.dataObjects, l.owner)))
  {
    var rows := BumpDataObject(db.dataObjects, l.owner);
    BumpedDataObjectsCount(db, l);
    BumpedDataObjectsUnique(db.dataObjects, l.owner);
    var db' := db.(dataObjectLinks := db.dataObjectLinks + [l], dataObjects := rows);
    assert CountersConsistent(db');
    assert RowidsBelow(db');
    assert Unique(db');
  }

  lemma BumpedDataObjectsCount(db: Tables, l: Link)
    requires CountersConsistent(db) && RowidsBelow(db)
    ensures forall d :: d in BumpDataObject(db.dataObjects, l.owner) ==>
      d.numAttributes == LinkCount(db.dataObjectLinks + [l], d.rowid) && d.rowid < db.next
  {
    var rows := BumpDataObject(db.dataObjects, l.owner);
    forall d | d in rows
      ensures d.numAttributes == LinkCount(db.dataObjectLinks + [l], d.rowid) && d.rowid < db.next
    {
      var i :| 0 <= i < |rows| && rows[i] == d;
      LinkCountAppend(db.dataObjectLinks, l, d.rowid);
      assert db.dataObjects[i] in db.dataObjects;
    }
  }

  lemma BumpedDataObjectsUnique(rows: seq<DataObjectRow>, owner: nat)
    requires forall a, b :: a in rows && b in rows && a.id == b.id ==> a == b
    requires forall a, b :: a in rows && b in rows && a.rowid == b.rowid ==> a == b
    ensures var rows' := BumpDataObject(rows, owner);
      (forall a, b :: a in rows' && b in rows' && a.id == b.id ==> a == b)
      && (forall a, b :: a in rows' && b in rows' && a.rowid == b.rowid ==> a == b)
  {
    var rows' := BumpDataObject(rows, owner);
    forall a, b | a in rows' && b in rows' && (a.id == b.id || a.rowid == b.rowid) ensures a == b {
      var i :| 0 <= i < |rows'| && rows'[i] == a;
      var j :| 0 <= j < |rows'| && rows'[j] == b;
      assert rows[i] in rows && rows[j] in rows;
    }
  }


  lemma NodeLinkAdded(db: Tables, l: Link)
    requires Valid(db) && l.owner < db.next
    ensures Valid(db.(nodeLinks := db.nodeLinks + [l], nodes := BumpNode(db.nodes, l.owner, l.weight)))
  {
    var rows := BumpNode(db.nodes, l.owner, l.weight);
    BumpedNodesCount(db, l);
    BumpedNodesUnique(db.nodes, l.owner, l.weight);
    var db' := db.(nodeLinks := db.nodeLinks + [l], nodes := rows);
    assert CountersConsistent(db');
    assert RowidsBelow(db');
    assert Unique(db');
  }

  lemma BumpedNodesCount(db: Tables, l: Link)
    requires CountersConsistent(db) && RowidsBelow(db)
    ensures forall n :: n in BumpNode(db.nodes, l.owner, l.weight) ==>
      n.numAttributes == LinkCount(db.nodeLinks + [l], n.rowid)
      && n.sumWeights == WeightSum(db.nodeLinks + [l], n.rowid) && n.rowid < db.next
  {
    var rows := BumpNode(db.nodes, l.owner, l.weight);
    forall n | n in rows
      ensures n.numAttributes == LinkCount(db.nodeLinks + [l], n.rowid)
      ensures n.sumWeights == WeightSum(db.nodeLinks + [l], n.rowid) && n.rowid < db.next
    {
      var i :| 0 <= i < |rows| && rows[i] == n;
      LinkCountAppend(db.nodeLinks, l, n.rowid);
      assert db.nodes[i] in db.nodes;
    }
  }

  lemma BumpedNodesUnique(rows: seq<NodeRow>, owner: nat, weight: nat)
    requires forall a, b :: a in rows && b in rows && a.id == b.id ==> a == b
    requires forall a, b :: a in rows && b in rows && a.rowid == b.rowid ==> a == b
    ensures var rows' := BumpNode(rows, owner, weight);
      (forall a, b :: a in rows' && b in rows' && a.id == b.id ==> a == b)
      && (forall a, b :: a in rows' && b in rows' && a.rowid == b.rowid ==> a == b)
  {
    var rows' := BumpNode(rows, owner, weight);
    forall a, b | a in rows' && b in rows' && (a.id == b.id || a.rowid == b.rowid) ensures a == b {
      var i :| 0 <= i < |rows'| && rows'[i] == a;
      var j :| 0 <= j < |rows'| && rows'[j] == b;
      assert rows[i] in rows && rows[j] in rows;
    }
  }


  lemma FilterLinkAdded(db: Tables, l: Link)
    requires Valid(db) && l.owner < db.next
    ensures Valid(db.(filterLinks := db.filterLinks + [l], filters := BumpFilter(db.filters, l.owner)))
  {
    var rows := BumpFilter(db.filters, l.owner);
    BumpedFiltersCount(db, l);
    BumpedFiltersUnique(db.filters, l.owner);
    var db' := db.(filterLinks := db.filterLinks + [l], filters := rows);
    assert CountersConsistent(db');
    assert RowidsBelow(db');
    assert Unique(db');
  }

  lemma BumpedFiltersCount(db: Tables, l: Link)
    requires CountersConsistent(db) && RowidsBelow(db)
    ensures forall f :: f in BumpFilter(db.filters, l.owner) ==>
      f.numAttributes == LinkCount(db.filterLinks + [l], f.rowid) && f.rowid < db.next
  {
    var rows := BumpFilter(db.filters, l.owner);
    forall f | f in rows
      ensures f.numAttributes == LinkCount(db.filterLinks + [l], f.rowid) && f.rowid < db.next
    {
      var i :| 0 <= i < |rows| && rows[i] == f;
      LinkCountAppend(db.filterLinks, l, f.rowid);
      assert db.filters[i] in db.filters;
    }
  }

  lemma BumpedFiltersUnique(rows: seq<FilterRow>, owner: nat)
    requires forall a, b :: a in rows && b in rows && a.event == b.event ==> a == b
    requires forall a, b :: a in rows && b in rows && a.rowid == b.rowid ==> a == b
    ensures var rows' := BumpFilter(rows, owner);
      (forall a, b :: a in rows' && b in rows' && a.event == b.event ==> a == b)
      && (forall a, b :: a in rows' && b in rows' && a.rowid == b.rowid ==> a == b)
  {
    var rows' := BumpFilter(rows, owner);
    forall a, b | a in rows' && b in rows' && (a.event == b.event || a.rowid == b.rowid) ensures a == b {
      var i :| 0 <= i < |rows'| && rows'[i] == a;
      var j :| 0 <= j < |rows'| && rows'[j] == b;
      assert rows[i] in rows && rows[j] in rows;
    }
  }


  // ---------------------------------------------------------------------------
  // Deleting rows (the delete triggers)

  function WithoutOwner(links: seq<Link>, owner: nat): (r: seq<Link>)
    ensures forall l :: l in r <==> l in links && l.owner != owner
  {
    if links == [] then []
    else
      var init := links[..|links| - 1];
      var last := links[|links| - 1];
      assert links == init + [last];
      WithoutOwner(init, owner) + (if last.owner == owner then [] else [last])
  }

  function WithoutDataObjectRow(rows: seq<DataObjectRow>, rowid: nat): (r: seq<DataObjectRow>)
    ensures forall d :: d in r <==> d in rows && d.rowid != rowid
  {
    if rows == [] then []
    else (if rows[0].rowid == rowid then [] else [rows[0]]) + WithoutDataObjectRow(rows[1..], rowid)
  }

  function WithoutNodeRow(rows: seq<NodeRow>, rowid: nat): (r: seq<NodeRow>)
    ensures forall n :: n in r <==> n in rows && n.rowid != rowid
  {
    if rows == [] then []
    else (if rows[0].rowid == rowid then [] else [rows[0]]) + WithoutNodeRow(rows[1..], rowid)
  }

  function WithoutFilterRow(rows: seq<FilterRow>, rowid: nat): (r: seq<FilterRow>)
    ensures forall f :: f in r <==> f in rows && f.rowid != rowid
  {
    if rows == [] then []
    else (if rows[0].rowid == rowid then [] else [rows[0]]) + WithoutFilterRow(rows[1..], rowid)
  }

  function WithoutInterfacesOf(rows: seq<InterfaceRow>, nodeRowid: nat): (r: seq<InterfaceRow>)
    ensures forall i :: i in r <==> i in rows && i.nodeRowid != nodeRowid
  {
    if rows == [] then []
    else (if rows[0].nodeRowid == nodeRowid then [] else [rows[0]]) + WithoutInterfacesOf(rows[1..], nodeRowid)
  }

  /** `DELETE FROM dataobjects` of one row, and the trigger deleting its
   *  link rows. */
  function DeleteDataObject(db: Tables, rowid: nat): Tables
  {
    db.(dataObjects := WithoutDataObjectRow(db.dataObjects, rowid),
        dataObjectLinks := WithoutOwner(db.dataObjectLinks, rowid))
  }

  /** `DELETE FROM nodes` of one row, and the trigger deleting its link rows
   *  and its interfaces. */
  function DeleteNode(db: Tables, rowid: nat): Tables
  {
    db.(nodes := WithoutNodeRow(db.nodes, rowid),
        nodeLinks := WithoutOwner(db.nodeLinks, rowid),
        interfaces := WithoutInterfacesOf(db.interfaces, rowid))
  }

  /** `DELETE FROM filters` of one row, and the trigger deleting its link
   *  rows. */
  function DeleteFilter(db: Tables, rowid: nat): Tables
  {
    db.(filters := WithoutFilterRow(db.filters, rowid),
        filterLinks := WithoutOwner(db.filterLinks, rowid))
  }

  /** Removing one owner's link rows leaves every other owner's counts. */
  lemma {:induction false} CountsWithoutOwner(links: seq<Link>, owner: nat, other: nat)
    requires other != owner
    ensures LinkCount(WithoutOwner(links, owner), other) == LinkCount(links, other)
    ensures WeightSum(WithoutOwner(links, owner), other) == WeightSum(links, other)
    decreases |links|
  {
    if links != [] {
      var init := links[..|links| - 1];
      var last := links[|links| - 1];
      CountsWithoutOwner(init, owner, other);
      assert LinkCount(links, other) == LinkCount(init, other) + (if last.owner == other then 1 else 0);
      assert WeightSum(links, other) == WeightSum(init, other) + (if last.owner == other then last.weight else 0);
      if last.owner != owner {
        assert WithoutOwner(links, owner) == WithoutOwner(init, owner) + [last];
        LinkCountAppend(WithoutOwner(init, owner), last, other);
      } else {
        assert WithoutOwner(links, owner) == WithoutOwner(init, owner);
      }
    }
  }

  /** Deleting a data object removes it and its link rows and keeps the
   *  counters of every remaining data object. */
  lemma DeleteDataObjectKeepsValid(db: Tables, rowid: nat)
    requires Valid(db)
    ensures var db' := DeleteDataObject(db, rowid);
      Valid(db') && db'.next == db.next
      && (forall d :: d in db'.dataObjects <==> d in db.dataObjects && d.rowid != rowid)
      && (forall l :: l in db'.dataObjectLinks ==> l.owner != rowid)
  {
    var db' := DeleteDataObject(db, rowid);
    forall d | d in db'.dataObjects ensures d.numAttributes == LinkCount(db'.dataObjectLinks, d.rowid) {
      CountsWithoutOwner(db.dataObjectLinks, rowid, d.rowid);
    }
  }

  /** Deleting a node removes it, its link rows and its interfaces, and
   *  keeps the counters of every remaining node. */
  lemma DeleteNodeKeepsValid(db: Tables, rowid: nat)
    requires Valid(db)
    ensures var db' := DeleteNode(db, rowid);
      Valid(db') && db'.next == db.next && db'.attributes == db.attributes
      && (forall n :: n in db'.nodes <==> n in db.nodes && n.rowid != rowid)
      && (forall l :: l in db'.nodeLinks ==> l.owner != rowid)
      && (forall i :: i in db'.interfaces ==> i.nodeRowid != rowid)
  {
    var db' := DeleteNode(db, rowid);
    forall n | n in db'.nodes
      ensures n.numAttributes == LinkCount(db'.nodeLinks, n.rowid) && n.sumWeights == WeightSum(db'.nodeLinks, n.rowid)
    {
      CountsWithoutOwner(db.nodeLinks, rowid, n.rowid);
    }
  }

  /** Deleting a filter removes it and its link rows and keeps the counters
   *  of every remaining filter. */
  lemma DeleteFilterKeepsValid(db: Tables, rowid: nat)
    requires Valid(db)
    ensures var db' := DeleteFilter(db, rowid);
      Valid(db') && db'.next == db.next && db'.attributes == db.attributes
      && (forall f :: f in db'.filters <==> f in db.filters && f.rowid != rowid)
      && (forall l :: l in db'.filterLinks ==> l.owner != rowid)
  {
    var db' := DeleteFilter(db, rowid);
    forall f | f in db'.filters ensures f.numAttributes == LinkCount(db'.filterLinks, f.rowid) {
      CountsWithoutOwner(db.filterLinks, rowid, f.rowid);
    }
  }

  // ---------------------------------------------------------------------------
  // New rows

  /** An owner row id no link row uses yet has no links. */
  lemma {:induction false} FreshOwnerHasNoLinks(links: seq<Link>, owner: nat)
    requires forall l :: l in links ==> l.owner < owner
    ensures LinkCount(links, owner) == 0 && WeightSum(links, owner) == 0
    decreases |links|
  {
    if links != [] {
      assert links[|links| - 1] in links;
      assert forall l :: l in links[..|links| - 1] ==> l in links;
      FreshOwnerHasNoLinks(links[..|links| - 1], owner);
    }
  }

  function NewDataObjectRow(db: Tables, id: string, dataLen: int): Tables
  {
    db.(dataObjects := db.dataObjects + [DataObjectRow(db.next, id, dataLen, 0)], next := db.next + 1)
  }

  function NewNodeRow(db: Tables, nodeType: NodeType, id: string, maxMatches: nat, threshold: nat): Tables
  {
    db.(nodes := db.nodes + [NodeRow(db.next, nodeType, id, 0, 0, maxMatches, threshold)], next := db.next + 1)
  }

  function NewFilterRow(db: Tables, event: int): Tables
  {
    db.(filters := db.filters + [FilterRow(db.next, event, 0)], next := db.next + 1)
  }

  /** A new data object row with a fresh row id starts with no attributes,
   *  as the table's DEFAULT 0 says, and keeps the tables valid. */
  lemma NewDataObjectKeepsValid(db: Tables, id: string, dataLen: int)
    requires Valid(db) && FindDataObject(db.dataObjects, id).None?
    ensures Valid(NewDataObjectRow(db, id, dataLen))
  {
    FreshOwnerHasNoLinks(db.dataObjectLinks, db.next);
    var db' := NewDataObjectRow(db, id, dataLen);
    var row := DataObjectRow(db.next, id, dataLen, 0);
    assert forall d :: d in db'.dataObjects ==> d in db.dataObjects || d == row;
    assert CountersConsistent(db');
    assert RowidsBelow(db');
  }

  lemma NewNodeKeepsValid(db: Tables, nodeType: NodeType, id: string, maxMatches: nat, threshold: nat)
    requires Valid(db) && FindNode(db.nodes, id).None?
    ensures Valid(NewNodeRow(db, nodeType, id, maxMatches, threshold))
  {
    FreshOwnerHasNoLinks(db.nodeLinks, db.next);
    var db' := NewNodeRow(db, nodeType, id, maxMatches, threshold);
    var row := NodeRow(db.next, nodeType, id, 0, 0, maxMatches, threshold);
    assert forall n :: n in db'.nodes ==> n in db.nodes || n == row;
    assert CountersConsistent(db');
    assert RowidsBelow(db');
  }

  lemma NewFilterKeepsValid(db: Tables, event: int)
    requires Valid(db) && FindFilter(db.filters, event).None?
    ensures Valid(NewFilterRow(db, event))
  {
    FreshOwnerHasNoLinks(db.filterLinks, db.next);
    var db' := NewFilterRow(db, event);
    var row := FilterRow(db.next, event, 0);
    assert forall f :: f in db'.filters ==> f in db.filters || f == row;
    assert CountersConsistent(db');
    assert RowidsBelow(db');
  }

  // ---------------------------------------------------------------------------
  // Linking a list of attributes

  /** The attribute loop of `_insertFilter`, `_insertNode` and
   *  `_insertDataObject`: for each attribute in turn, insert or reuse its
   *  attribute row, then link it to the owner. */
  function LinkAll(db: Tables, kind: Kind, owner: nat, attrs: seq<Attribute>): Tables
    decreases |attrs|
  {
    if attrs == [] then db
    else
      var db1 := LinkAll(db, kind, owner, attrs[..|attrs| - 1]);
      var a := attrs[|attrs| - 1];
      var (db2, attr) := InsertAttribute(db1, a.name, a.value);
      AddLink(db2, kind, owner, attr, a.weight)
  }

  /** The owner is linked to a stored attribute row of that name and value. */
  ghost predicate Linked(db: Tables, kind: Kind, owner: nat, a: Attribute)
  {
    exists r :: r in db.attributes && r.name == a.name && r.value == a.value && HasLink(LinksOf(db, kind), owner, r.rowid)
  }

  /** Linking attributes keeps the tables valid, only adds rows, and
   *  afterwards every one of them is linked to the owner. */
  lemma {:induction false} LinkAllKeepsValid(db: Tables, kind: Kind, owner: nat, attrs: seq<Attribute>)
    requires Valid(db) && owner < db.next
    ensures var db' := LinkAll(db, kind, owner, attrs);
      Valid(db') && db'.next >= db.next && SameRows(db, db')
      && (forall r :: r in db.attributes ==> r in db'.attributes)
      && (forall l :: l in LinksOf(db, kind) ==> l in LinksOf(db', kind))
      && (forall a :: a in attrs ==> Linked(db', kind, owner, a))
    decreases |attrs|
  {
    if attrs != [] {
      var init, a := attrs[..|attrs| - 1], attrs[|attrs| - 1];
      assert attrs == init + [a];
      var db1 := LinkAll(db, kind, owner, init);
      var (db2, attr) := InsertAttribute(db1, a.name, a.value);
      var db3 := AddLink(db2, kind, owner, attr, a.weight);
      assert LinkAll(db, kind, owner, attrs) == db3;
      LinkAllKeepsValid(db, kind, owner, init);
      InsertAttributeUnique(db1, a.name, a.value);
      assert LinksOf(db2, kind) == LinksOf(db1, kind);
      AddLinkKeepsValid(db2, kind, owner, attr, a.weight);
      LinksGrow(LinksOf(db2, kind), LinksOf(db3, kind));
      LinkedKept(db1, db3, kind, owner, init, a, attr);
    }
  }

  lemma LinksGrow(links: seq<Link>, links': seq<Link>)
    requires links' == links || exists l :: links' == links + [l]
    ensures forall l :: l in links ==> l in links'
  {
    if links' != links {
      var l :| links' == links + [l];
    }
  }

  /** One more linked attribute: what was linked before stays linked, as
   *  rows and links are only ever added. */
  lemma LinkedKept(db1: Tables, db3: Tables, kind: Kind, owner: nat, init: seq<Attribute>, a: Attribute, attr: nat)
    requires forall b :: b in init ==> Linked(db1, kind, owner, b)
    requires forall r :: r in db1.attributes ==> r in db3.attributes
    requires forall l :: l in LinksOf(db1, kind) ==> l in LinksOf(db3, kind)
    requires AttrRow(attr, a.name, a.value) in db3.attributes && HasLink(LinksOf(db3, kind), owner, attr)
    ensures forall b :: b in init + [a] ==> Linked(db3, kind, owner, b)
  {
    forall b | b in init + [a] ensures Linked(db3, kind, owner, b) {
      if b in init {
        var r :| r in db1.attributes && r.name == b.name && r.value == b.value && HasLink(LinksOf(db1, kind), owner, r.rowid);
        var l :| l in LinksOf(db1, kind) && l.owner == owner && l.attr == r.rowid;
        assert l in LinksOf(db3, kind);
      } else {
        assert AttrRow(attr, a.name, a.value) in db3.attributes;
      }
    }
  }

  // ---------------------------------------------------------------------------
  // The matching views

  /** VIEW_SIMILAR_ATTRIBUTES: a filter's attribute is similar to a stored
   *  attribute when the names are equal and either the values are equal or
   *  the filter's value is the wildcard. */
  predicate Similar(filterAttr: AttrRow, attr: AttrRow)
  {
    filterAttr.name == attr.name && (filterAttr.value == attr.value || filterAttr.value == Wildcard)
  }

  /** A filter attribute without the wildcard is similar to exactly the
   *  attribute with its own name and value; one with the wildcard to every
   *  attribute of its name. */
  lemma SimilarCases(filterAttr: AttrRow, attr: AttrRow)
    ensures filterAttr.value != Wildcard ==>
      (Similar(filterAttr, attr) <==> attr.name == filterAttr.name && attr.value == filterAttr.value)
    ensures filterAttr.value == Wildcard ==> (Similar(filterAttr, attr) <==> attr.name == filterAttr.name)
  {
  }

  /** The grouped row of VIEW_MATCH_NODES_AND_DATAOBJECTS (and of the view
   *  joining the other way) for one node and one data object: how many
   *  (node link, data object link) pairs share an attribute, the sum of
   *  the node-side weights over those pairs and the least such weight. */
  datatype Stats = Stats(count: nat, weight: nat, minWeight: nat)

  /** The number of an owner's links to one attribute row. */
  function AttrLinkCount(links: seq<Link>, owner: nat, attr: nat): nat
  {
    if links == [] then 0
    else
      var l := links[|links| - 1];
      AttrLinkCount(links[..|links| - 1], owner, attr) + (if l.owner == owner && l.attr == attr then 1 else 0)
  }

  function MatchStats(nodeLinks: seq<Link>, doLinks: seq<Link>, node: nat, dObj: nat): (s: Stats)
    ensures s.count == 0 ==> s.weight == 0
  {
    if nodeLinks == [] then Stats(0, 0, 0)
    else
      var s := MatchStats(nodeLinks[..|nodeLinks| - 1], doLinks, node, dObj);
      var l := nodeLinks[|nodeLinks| - 1];
      var k := if l.owner == node then AttrLinkCount(doLinks, dObj, l.attr) else 0;
      if k == 0 then s
      else Stats(s.count + k, s.weight + k * l.weight,
                 if s.count == 0 || l.weight < s.minWeight then l.weight else s.minWeight)
  }

  /** The rated view's selection: the pair has a grouped row, none of its
   *  matching node weights is the no-match weight's minimum, the node's sum
   *  of weights is not zero (a NULL ratio compares false), the ratio
   *  100 * weight / sum_weights reaches the threshold and the match count
   *  reaches attrMatch. Used both by the node-to-data-object query and by
   *  the data-object-to-node query. */
  predicate Matches(db: Tables, noMatch: nat, n: NodeRow, d: DataObjectRow, threshold: int, attrMatch: int)
  {
    var s := MatchStats(db.nodeLinks, db.dataObjectLinks, n.rowid, d.rowid);
    s.count > 0 && s.minWeight != noMatch && n.sumWeights > 0
    && 100 * s.weight / n.sumWeights >= threshold && s.count >= attrMatch
  }

  /** The ratio test in integer arithmetic: 100 * weight / sum reaches a
   *  threshold exactly when 100 * weight reaches threshold * sum. */
  lemma RatioThreshold(weight: nat, sum: nat, threshold: int)
    requires sum > 0
    ensures 100 * weight / sum >= threshold <==> 100 * weight >= threshold * sum
  {
    var q := 100 * weight / sum;
    var r := 100 * weight % sum;
    assert 100 * weight == q * sum + r && 0 <= r < sum;
    if q >= threshold {
      assert q * sum >= threshold * sum by {
        assert (q - threshold) * sum >= 0;
      }
    } else {
      assert (threshold - q) * sum >= sum by {
        assert threshold - q >= 1;
      }
    }
  }

  /** The number of an owner's data object links whose attribute a filter
   *  attribute is similar to. */
  function SimilarLinks(attrs: seq<AttrRow>, doLinks: seq<Link>, dObj: nat, fa: AttrRow): nat
  {
    if doLinks == [] then 0
    else
      var l := doLinks[|doLinks| - 1];
      SimilarLinks(attrs, doLinks[..|doLinks| - 1], dObj, fa)
      + (if l.owner == dObj && AttributeById(attrs, l.attr).Some? && Similar(fa, AttributeById(attrs, l.attr).value)
         then 1 else 0)
  }

  /** The uses of an attribute row by filter links of any filter. */
  function AttrUses(filterLinks: seq<Link>, attr: nat): nat
  {
    if filterLinks == [] then 0
    else AttrUses(filterLinks[..|filterLinks| - 1], attr) + (if filterLinks[|filterLinks| - 1].attr == attr then 1 else 0)
  }

  /** fmcount of VIEW_MATCH_FILTERS_AND_DATAOBJECTS for one filter and one
   *  data object. The similar-attributes view is built from the attribute
   *  rows of every filter's links, so a pair (filter link, data object
   *  link) is counted once per filter link that uses the same attribute
   *  row. */
  function FilterMatchCount(db: Tables, links: seq<Link>, filter: nat, dObj: nat): nat
  {
    if links == [] then 0
    else
      var fl := links[|links| - 1];
      FilterMatchCount(db, links[..|links| - 1], filter, dObj)
      + (if fl.owner == filter && AttributeById(db.attributes, fl.attr).Some?
         then SimilarLinks(db.attributes, db.dataObjectLinks, dObj, AttributeById(db.attributes, fl.attr).value)
              * AttrUses(db.filterLinks, fl.attr)
         else 0)
  }

  /** VIEW_MATCH_FILTERS_AND_DATAOBJECTS_AS_RATIO with `ratio > 0`: a filter
   *  with attributes whose ratio 100 * fmcount / num_attributes is positive,
   *  stated without the division (FilterRatioPositive). */
  predicate FilterMatches(db: Tables, f: FilterRow, d: DataObjectRow)
  {
    f.numAttributes > 0 && 100 * FilterMatchCount(db, db.filterLinks, f.rowid, d.rowid) >= f.numAttributes
  }

  /** The view's integer ratio is positive exactly when 100 times the match
   *  count reaches the number of attributes. */
  lemma FilterRatioPositive(count: nat, num: nat)
    requires num > 0
    ensures 100 * count / num > 0 <==> 100 * count >= num
  {
    var q := 100 * count / num;
    assert 100 * count == q * num + 100 * count % num;
    if q == 0 {
      assert 100 * count < num;
    } else {
      assert q * num >= num;
    }
  }

  /** FilterMatches is the view's ratio test. */
  lemma FilterMatchesIsRatio(db: Tables, f: FilterRow, d: DataObjectRow)
    ensures FilterMatches(db, f, d) <==>
      f.numAttributes > 0 && 100 * FilterMatchCount(db, db.filterLinks, f.rowid, d.rowid) / f.numAttributes > 0
  {
    if f.numAttributes > 0 {
      FilterRatioPositive(FilterMatchCount(db, db.filterLinks, f.rowid, d.rowid), f.numAttributes);
    }
  }

  // ---------------------------------------------------------------------------
  // Stored data length

  /** The datalen column as intended: -1 for a dynamic data length, the
   *  length otherwise. */
  function StoredDataLen(dynamic: bool, len: nat): (stored: int)
    ensures dynamic <==> stored == -1
  {
    if dynamic then -1 else len
  }

  /** `createDataObject` reading the datalen column back: -1 means a dynamic
   *  length, anything else is the length. */
  function ReadDataLen(stored: int): (r: (bool, int))
    ensures r.0 <==> stored == -1
  {
    if stored == -1 then (true, 0) else (false, stored)
  }

  lemma DataLenRoundTrip(dynamic: bool, len: nat)
    ensures ReadDataLen(StoredDataLen(dynamic, len)).0 == dynamic
    ensures !dynamic ==> ReadDataLen(StoredDataLen(dynamic, len)).1 == len
  {
  }

  /** The datalen value the insert command writes on a 64-bit build: the
   *  conditional mixes -1 with an unsigned long, so -1 becomes
   *  2^64 - 1 and is printed with %lu. */
  function InsertedDataLen64(dynamic: bool, len: nat): (v: nat)
    requires len < 0x1_0000_0000_0000_0000
    ensures v < 0x1_0000_0000_0000_0000
  {
    if dynamic then 0xFFFF_FFFF_FFFF_FFFF else len
  }

  /** Reading an integer column with sqlite3_column_int64: a literal beyond
   *  the 64-bit signed range was stored as a real and comes back as the
   *  largest 64-bit integer. */
  function ColumnInt64(stored: nat): (v: int)
    ensures v <= 0x7FFF_FFFF_FFFF_FFFF
  {
    if stored > 0x7FFF_FFFF_FFFF_FFFF then 0x7FFF_FFFF_FFFF_FFFF else stored
  }

  /** On a 64-bit build a dynamic data length does not come back as dynamic. */
  lemma DynamicLenLost64()
    ensures !ReadDataLen(ColumnInt64(InsertedDataLen64(true, 0))).0
  {
  }

  // ---------------------------------------------------------------------------
  // The repository table

  /** Whether some row has this authority and key. */
  predicate HasEntry(rows: seq<RepositoryRow>, authority: string, key: string)
  {
    exists r :: r in rows && r.authority == authority && r.key == key
  }

  /** `UPDATE repository SET authority, key, value WHERE ...`: every row the
   *  condition selects gets the new key and value. */
  function UpdateRepository(rows: seq<RepositoryRow>, id: nat, authority: string, key: string, value: string): (out: seq<RepositoryRow>)
    ensures |out| == |rows|
    ensures forall i :: 0 <= i < |rows| ==>
      out[i] == (if (id > 0 && rows[i].rowid == id && rows[i].authority == authority)
                    || (id == 0 && rows[i].authority == authority && rows[i].key == key)
                 then rows[i].(key := key, value := value) else rows[i])
  {
    if rows == [] then []
    else
      var r := rows[0];
      var hit := (id > 0 && r.rowid == id && r.authority == authority) || (id == 0 && r.authority == authority && r.key == key);
      [if hit then r.(key := key, value := value) else r] + UpdateRepository(rows[1..], id, authority, key, value)
  }
}
