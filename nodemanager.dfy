/**
 * The node manager's node-description exchange (NodeManager.cpp): sending
 * this node's description to neighbors that do not have it yet, remembering
 * each attempt until its send result arrives, dropping neighbors whose last
 * interface went down, and, when stored descriptions of a node come back
 * from the data store, keeping the newest one and deleting the rest.
 *
 * The node store, data store, interface store and bloomfilters are not part
 * of this model. Nodes and data objects are their ids; a bloomfilter is the
 * set of data object ids it holds; the node store is a map from node id to
 * the node's interfaces that are up. Every event the manager posts and every
 * call it makes into the data store is recorded, in order, as an Action.
 * Times are whole numbers.
 */
module NodeManager {
  import opened Wrappers

  type NodeId = string
  type DObjId = string
  type IfaceId = string

  /** A posted event or a call into the data store. */
  datatype Action =
    | SendDataObject(dObj: DObjId, neigh: NodeId)
    | DeleteDataObject(dObj: DObjId)
    | FilterQuery(node: NodeId)
    | InsertNode(node: NodeId)
    | NodeContactNew(node: NodeId)
    | NodeContactEnd(node: NodeId)
    | NodeUpdated(node: NodeId)

  /** A neighbor as `onSendNodeDescription` sees it: its id and the data
   *  objects its bloomfilter holds. */
  datatype Neighbor = Neighbor(id: NodeId, bloom: set<DObjId>)

  /** The result event of a send. */
  datatype SendResult = SendSuccessful | SendFailure | SendOther

  /** A stored node description returned by the data store. */
  datatype Description = Description(dObj: DObjId, node: NodeId, createTime: int, receiveTime: int)

  // ---------------------------------------------------------------------------
  // Sending this node's description

  /** The neighbors of a list whose bloomfilter lacks the description, in
   *  list order. */
  function Lacking(neighbors: seq<Neighbor>, desc: DObjId): (ns: seq<NodeId>)
    ensures |ns| <= |neighbors|
    ensures forall j :: 0 <= j < |neighbors| && desc !in neighbors[j].bloom ==> neighbors[j].id in ns
  {
    if neighbors == [] then []
    else
      var rest := Lacking(neighbors[1..], desc);
      assert forall j :: 1 <= j < |neighbors| ==> neighbors[j] == neighbors[1..][j - 1];
      (if desc in neighbors[0].bloom then [] else [neighbors[0].id]) + rest
  }

  /** A node is among the lacking exactly when some neighbor with its id has
   *  a bloomfilter without the description. */
  lemma {:induction false} LackingMembers(neighbors: seq<Neighbor>, desc: DObjId, x: NodeId)
    ensures x in Lacking(neighbors, desc) <==>
      exists j :: 0 <= j < |neighbors| && neighbors[j].id == x && desc !in neighbors[j].bloom
    decreases |neighbors|
  {
    if neighbors != [] {
      LackingMembers(neighbors[1..], desc, x);
      assert forall j :: 1 <= j < |neighbors| ==> neighbors[j] == neighbors[1..][j - 1];
      if x in Lacking(neighbors[1..], desc) {
        var j :| 0 <= j < |neighbors[1..]| && neighbors[1..][j].id == x && desc !in neighbors[1..][j].bloom;
        assert neighbors[j + 1] == neighbors[1..][j];
      }
    }
  }

  function SendsTo(desc: DObjId, ns: seq<NodeId>): (acts: seq<Action>)
    ensures |acts| == |ns|
    ensures forall j :: 0 <= j < |ns| ==> acts[j] == SendDataObject(desc, ns[j])
  {
    if ns == [] then [] else [SendDataObject(desc, ns[0])] + SendsTo(desc, ns[1..])
  }

  function Attempts(desc: DObjId, ns: seq<NodeId>): (ps: seq<(NodeId, DObjId)>)
    ensures |ps| == |ns|
    ensures forall j :: 0 <= j < |ns| ==> ps[j] == (ns[j], desc)
  {
    if ns == [] then [] else [(ns[0], desc)] + Attempts(desc, ns[1..])
  }

  // ---------------------------------------------------------------------------
  // Send results

  /** The first position of an exchange entry. */
  function FindEntry(list: seq<(NodeId, DObjId)>, e: (NodeId, DObjId)): (k: nat)
    ensures k <= |list|
    ensures k < |list| ==> list[k] == e
    ensures forall j :: 0 <= j < k ==> list[j] != e
  {
    if list == [] then 0
    else if list[0] == e then 0
    else
      var k := FindEntry(list[1..], e);
      assert forall j :: 1 <= j < |list| ==> list[j] == list[1..][j - 1];
      k + 1
  }

  /** Erasing the first entry found removes one occurrence of it and keeps
   *  every other entry. */
  lemma EraseFirstEntry(list: seq<(NodeId, DObjId)>, e: (NodeId, DObjId))
    requires FindEntry(list, e) < |list|
    ensures var k := FindEntry(list, e);
      multiset(list[..k] + list[k + 1..]) == multiset(list) - multiset{e}
  {
    var k := FindEntry(list, e);
    var before, after := list[..k], list[k + 1..];
    assert list == before + [e] + after;
    assert multiset(list) == multiset(before) + multiset{e} + multiset(after);
    assert multiset(before + after) == multiset(before) + multiset(after);
  }

  // ---------------------------------------------------------------------------
  // Choosing among stored descriptions

  /** The description `onRetrieveNodeDescription` keeps among the first n:
   *  a later one replaces the kept one only with a strictly greater create
   *  time. */
  function Newest(rs: seq<Description>, n: nat): (k: nat)
    requires 0 < n <= |rs|
    ensures k < n
    ensures forall j :: 0 <= j < n ==> rs[j].createTime <= rs[k].createTime
    ensures forall j :: 0 <= j < k ==> rs[j].createTime < rs[k].createTime
  {
    if n == 1 then 0
    else
      var k := Newest(rs, n - 1);
      if rs[n - 1].createTime > rs[k].createTime then n - 1 else k
  }

  /** The positions deleted while looking at the first n, in deletion
   *  order: the kept one when a newer one turns up, otherwise the newcomer. */
  function Deleted(rs: seq<Description>, n: nat): (ds: seq<nat>)
    requires 0 < n <= |rs|
    ensures |ds| == n - 1
    ensures forall j :: 0 <= j < |ds| ==> ds[j] < n
    decreases n
  {
    if n == 1 then []
    else
      var k := Newest(rs, n - 1);
      Deleted(rs, n - 1) + [if rs[n - 1].createTime > rs[k].createTime then k else n - 1]
  }

  /** Every description but the kept one is deleted, and each just once. */
  lemma {:induction false} DeletedAllButNewest(rs: seq<Description>, n: nat)
    requires 0 < n <= |rs|
    ensures forall j :: 0 <= j < n ==> (j in Deleted(rs, n) <==> j != Newest(rs, n))
    ensures forall a, b :: 0 <= a < b < |Deleted(rs, n)| ==> Deleted(rs, n)[a] != Deleted(rs, n)[b]
    decreases n
  {
    if n > 1 {
      DeletedAllButNewest(rs, n - 1);
      var k := Newest(rs, n - 1);
      var prev := Deleted(rs, n - 1);
      var d := if rs[n - 1].createTime > rs[k].createTime then k else n - 1;
      assert Deleted(rs, n) == prev + [d];
      if rs[n - 1].createTime > rs[k].createTime {
        assert k !in prev;
      } else {
        assert forall j :: 0 <= j < |prev| ==> prev[j] != n - 1;
      }
      forall j | 0 <= j < n
        ensures j in Deleted(rs, n) <==> j != Newest(rs, n)
      {
        assert j in prev + [d] <==> j in prev || j == d;
      }
    }
  }

  function DeleteActions(rs: seq<Description>, ds: seq<nat>): (acts: seq<Action>)
    requires forall j :: 0 <= j < |ds| ==> ds[j] < |rs|
    ensures |acts| == |ds|
    ensures forall j :: 0 <= j < |ds| ==> acts[j] == DeleteDataObject(rs[ds[j]].dObj)
  {
    if ds == [] then [] else [DeleteDataObject(rs[ds[0]].dObj)] + DeleteActions(rs, ds[1..])
  }

  /** The greatest receive time among the first n. */
  function LatestReceive(rs: seq<Description>, n: nat): (t: int)
    requires 0 < n <= |rs|
    ensures forall j :: 0 <= j < n ==> rs[j].receiveTime <= t
    ensures exists j :: 0 <= j < n && rs[j].receiveTime == t
  {
    if n == 1 then rs[0].receiveTime
    else
      var t := LatestReceive(rs, n - 1);
      if rs[n - 1].receiveTime > t then rs[n - 1].receiveTime else t
  }

  /** The receive time as the loop computes it: a description's receive time
   *  is taken when it exceeds that of the description kept so far, not that
   *  of the greatest receive time so far. */
  function ReceiveAsWritten(rs: seq<Description>, n: nat): (t: int)
    requires 0 < n <= |rs|
    ensures exists j :: 0 <= j < n && rs[j].receiveTime == t
  {
    if n == 1 then rs[0].receiveTime
    else
      var t := ReceiveAsWritten(rs, n - 1);
      if rs[n - 1].receiveTime > rs[Newest(rs, n - 1)].receiveTime then rs[n - 1].receiveTime else t
  }

  /** Three stored descriptions (create, receive) = (1, 5), (0, 10), (2, 7):
   *  the loop as written ends with receive time 7, equal to the kept
   *  description's, so the description is accepted although the one received
   *  last was received at 10. */
  lemma ReceiveAsWrittenMissesLatest()
    ensures var rs := [Description("a", "n", 1, 5), Description("b", "n", 0, 10), Description("c", "n", 2, 7)];
      Newest(rs, 3) == 2 && ReceiveAsWritten(rs, 3) == 7 && rs[2].receiveTime == 7
      && LatestReceive(rs, 3) == 10
  {
  }

  /** With the running maximum, a kept description is accepted exactly when
   *  no stored description was received later than it. */
  lemma AcceptedIsLatestReceived(rs: seq<Description>)
    requires |rs| > 0
    ensures var k := Newest(rs, |rs|);
      LatestReceive(rs, |rs|) == rs[k].receiveTime <==>
      forall j :: 0 <= j < |rs| ==> rs[j].receiveTime <= rs[k].receiveTime
  {
  }

  // ---------------------------------------------------------------------------
  // The manager

  class NodeManager {
    /** This node and its current node description. */
    const thisNode: NodeId
    const thisDesc: DObjId
    /** `nodeExchangeList`: the (neighbor, description) sends not yet
     *  answered. */
    var exchangeList: seq<(NodeId, DObjId)>
    /** Each node's exchanged-node-description flag. */
    var exchanged: map<NodeId, bool>
    /** The node store: each neighbor and its interfaces that are up. */
    var store: map<NodeId, set<IfaceId>>
    /** Everything posted or asked of the data store, in order. */
    var actions: seq<Action>

    constructor (thisNode: NodeId, thisDesc: DObjId)
      ensures this.thisNode == thisNode && this.thisDesc == thisDesc
      ensures exchangeList == [] && exchanged == map[] && store == map[] && actions == []
    {
      this.thisNode := thisNode;
      this.thisDesc := thisDesc;
      exchangeList := [];
      exchanged := map[];
      store := map[];
      actions := [];
    }

    /** `sendNodeDescription`: 0 when the neighbor's bloomfilter already holds
     *  our description; otherwise one send is posted, the attempt is
     *  remembered and 1 is returned. */
    method SendNodeDescription(neigh: Neighbor) returns (r: int)
      modifies this`exchangeList, this`actions
      ensures thisDesc in neigh.bloom ==>
        r == 0 && exchangeList == old(exchangeList) && actions == old(actions)
      ensures thisDesc !in neigh.bloom ==>
        r == 1 && exchangeList == old(exchangeList) + [(neigh.id, thisDesc)]
        && actions == old(actions) + [SendDataObject(thisDesc, neigh.id)]
    {
      if thisDesc in neigh.bloom {
        return 0;
      }
      actions := actions + [SendDataObject(thisDesc, neigh.id)];
      exchangeList := exchangeList + [(neigh.id, thisDesc)];
      return 1;
    }

    /** `onSendNodeDescription`: nothing without neighbors; otherwise one
     *  `sendNodeDescription` per neighbor, in order. */
    method OnSendNodeDescription(neighbors: seq<Neighbor>)
      modifies this`exchangeList, this`actions
      ensures exchangeList == old(exchangeList) + Attempts(thisDesc, Lacking(neighbors, thisDesc))
      ensures actions == old(actions) + SendsTo(thisDesc, Lacking(neighbors, thisDesc))
    {
      if |neighbors| == 0 {
        assert Lacking(neighbors, thisDesc) == [];
        assert exchangeList + Attempts(thisDesc, []) == exchangeList;
        assert actions + SendsTo(thisDesc, []) == actions;
        return;
      }
      SendEach(neighbors);
    }

    /** The loop of `onSendNodeDescription`: `sendNodeDescription` for each
     *  neighbor in turn. */
    method SendEach(neighbors: seq<Neighbor>)
      modifies this`exchangeList, this`actions
      ensures exchangeList == old(exchangeList) + Attempts(thisDesc, Lacking(neighbors, thisDesc))
      ensures actions == old(actions) + SendsTo(thisDesc, Lacking(neighbors, thisDesc))
    {
      ghost var list0, acts0 := exchangeList, actions;
      var i := 0;
      SendEachStart(neighbors, thisDesc, list0, acts0);
      while i < |neighbors|
        invariant 0 <= i <= |neighbors|
        invariant exchangeList == list0 + Attempts(thisDesc, Lacking(neighbors[..i], thisDesc))
        invariant actions == acts0 + SendsTo(thisDesc, Lacking(neighbors[..i], thisDesc))
      {
        SendEachStep(neighbors, i, thisDesc, list0, acts0, exchangeList, actions);
        var _ := SendNodeDescription(neighbors[i]);
        i := i + 1;
      }
      assert neighbors[..i] == neighbors;
    }

    /** `onSendResult`: the first entry for (node, data object) is erased and
     *  the node's exchanged flag set on success and cleared on failure; with
     *  no such entry nothing changes. */
    method OnSendResult(node: NodeId, dObj: DObjId, result: SendResult)
      modifies this`exchangeList, this`exchanged
      ensures var k := FindEntry(old(exchangeList), (node, dObj));
        (k == |old(exchangeList)| ==> exchangeList == old(exchangeList) && exchanged == old(exchanged))
        && (k < |old(exchangeList)| ==>
              exchangeList == old(exchangeList)[..k] + old(exchangeList)[k + 1..]
              && exchanged == match result
                 case SendSuccessful => old(exchanged)[node := true]
                 case SendFailure => old(exchanged)[node := false]
                 case SendOther => old(exchanged))
    {
      var list := exchangeList;
      var i := 0;
      while i < |list|
        invariant 0 <= i <= |list|
        invariant forall j :: 0 <= j < i ==> list[j] != (node, dObj)
        invariant exchangeList == list && exchanged == old(exchanged)
      {
        if list[i] == (node, dObj) {
          if result == SendSuccessful {
            exchanged := exchanged[node := true];
          } else if result == SendFailure {
            exchanged := exchanged[node := false];
          }
          exchangeList := list[..i] + list[i + 1..];
          return;
        }
        i := i + 1;
      }
    }

    /** `onNeighborInterfaceDown`: the interface of the node that has it goes
     *  down; a node left with no interface up leaves the store, is written to
     *  the data store and its contact ends. */
    method OnNeighborInterfaceDown(node: Option<NodeId>, iface: IfaceId)
      requires node.Some? ==> node.value in store
      modifies this`store, this`actions
      ensures node.None? ==> store == old(store) && actions == old(actions)
      ensures node.Some? && old(store)[node.value] - {iface} == {} ==>
        store == old(store) - {node.value}
        && actions == old(actions) + [InsertNode(node.value), NodeContactEnd(node.value)]
      ensures node.Some? && old(store)[node.value] - {iface} != {} ==>
        store == old(store)[node.value := old(store)[node.value] - {iface}] && actions == old(actions)
    {
      if node.None? {
        return;
      }
      var n := node.value;
      var up := store[n] - {iface};
      if up == {} {
        store := store - {n};
        actions := actions + [InsertNode(n), NodeContactEnd(n)];
      } else {
        store := store[n := up];
      }
    }

    /** `onReceiveNodeDescription`: a description of this node itself is
     *  deleted from the data store and goes no further; any other starts a
     *  query for the stored descriptions of its node. */
    method OnReceiveNodeDescription(dObj: DObjId, node: NodeId)
      modifies this`actions
      ensures node == thisNode ==> actions == old(actions) + [DeleteDataObject(dObj)]
      ensures node != thisNode ==> actions == old(actions) + [FilterQuery(node)]
    {
      if node == thisNode {
        actions := actions + [DeleteDataObject(dObj)];
        return;
      }
      actions := actions + [FilterQuery(node)];
    }

    /** `onRetrieveNodeDescription`: of the returned descriptions the newest
     *  is kept and every other is deleted; the kept one is ignored when some
     *  description was received later than it. Otherwise its node is written
     *  to the data store and either updates a neighbor (`updated`) or, when
     *  some of its interfaces are up (`upIfaces`), joins the store as a new
     *  contact. Returns whether the description was taken. */
    method OnRetrieveNodeDescription(rs: seq<Description>, updated: bool, upIfaces: set<IfaceId>)
      returns (taken: bool)
      requires |rs| > 0
      modifies this`store, this`actions
      ensures var k := Newest(rs, |rs|);
        var deletes := old(actions) + DeleteActions(rs, Deleted(rs, |rs|));
        var node := rs[k].node;
        (taken <==> LatestReceive(rs, |rs|) == rs[k].receiveTime)
        && (!taken ==> actions == deletes && store == old(store))
        && (taken && updated ==>
              actions == deletes + [InsertNode(node), NodeUpdated(node)] && store == old(store))
        && (taken && !updated && upIfaces != {} ==>
              actions == deletes + [InsertNode(node), NodeContactNew(node)]
              && store == old(store)[node := upIfaces])
        && (taken && !updated && upIfaces == {} ==>
              actions == deletes + [InsertNode(node)] && store == old(store))
    {
      var k, receiveTime, deletes := SelectNewest(rs);
      actions := actions + deletes;
      if receiveTime != rs[k].receiveTime {
        return false;
      }
      var node := rs[k].node;
      actions := actions + [InsertNode(node)];
      if updated {
        actions := actions + [NodeUpdated(node)];
      } else if upIfaces != {} {
        store := store[node := upIfaces];
        actions := actions + [NodeContactNew(node)];
      }
      return true;
    }
  }

  /** The loop of `onRetrieveNodeDescription`: keeps the description with
   *  the greatest create time, deleting each one it passes over, and tracks
   *  the greatest receive time. */
  method SelectNewest(rs: seq<Description>) returns (k: nat, receiveTime: int, deletes: seq<Action>)
    requires |rs| > 0
    ensures k == Newest(rs, |rs|) && receiveTime == LatestReceive(rs, |rs|)
    ensures deletes == DeleteActions(rs, Deleted(rs, |rs|))
  {
    k := 0;
    receiveTime := rs[0].receiveTime;
    deletes := [];
    var i := 1;
    while i < |rs|
      invariant 1 <= i <= |rs|
      invariant k == Newest(rs, i)
      invariant receiveTime == LatestReceive(rs, i)
      invariant deletes == DeleteActions(rs, Deleted(rs, i))
    {
      SelectNewestStep(rs, i, k, receiveTime, deletes);
      if rs[i].receiveTime > receiveTime {
        receiveTime := rs[i].receiveTime;
      }
      if rs[i].createTime > rs[k].createTime {
        deletes := deletes + [DeleteDataObject(rs[k].dObj)];
        k := i;
      } else {
        deletes := deletes + [DeleteDataObject(rs[i].dObj)];
      }
      i := i + 1;
    }
  }

  /** Before the first neighbor, nothing was sent. */
  lemma SendEachStart(neighbors: seq<Neighbor>, desc: DObjId, list0: seq<(NodeId, DObjId)>, acts0: seq<Action>)
    ensures list0 == list0 + Attempts(desc, Lacking(neighbors[..0], desc))
    ensures acts0 == acts0 + SendsTo(desc, Lacking(neighbors[..0], desc))
  {
    assert neighbors[..0] == [];
    assert list0 + [] == list0 && acts0 + [] == acts0;
  }

  /** One neighbor of the `onSendNodeDescription` loop: what one
   *  `sendNodeDescription` appends extends the sends to the first i
   *  neighbors to those to the first i + 1. */
  lemma SendEachStep(neighbors: seq<Neighbor>, i: nat, desc: DObjId, list0: seq<(NodeId, DObjId)>,
                     acts0: seq<Action>, list: seq<(NodeId, DObjId)>, acts: seq<Action>)
    requires i < |neighbors|
    requires list == list0 + Attempts(desc, Lacking(neighbors[..i], desc))
    requires acts == acts0 + SendsTo(desc, Lacking(neighbors[..i], desc))
    ensures var n := neighbors[i];
      (desc in n.bloom ==>
         list == list0 + Attempts(desc, Lacking(neighbors[..i + 1], desc))
         && acts == acts0 + SendsTo(desc, Lacking(neighbors[..i + 1], desc)))
      && (desc !in n.bloom ==>
         list + [(n.id, desc)] == list0 + Attempts(desc, Lacking(neighbors[..i + 1], desc))
         && acts + [SendDataObject(desc, n.id)] == acts0 + SendsTo(desc, Lacking(neighbors[..i + 1], desc)))
  {
    var n := neighbors[i];
    var before := Lacking(neighbors[..i], desc);
    LackingStep(neighbors, i, desc);
    if desc !in n.bloom {
      AttemptsSnoc(desc, list0, before, n.id);
      SendsToSnoc(desc, acts0, before, n.id);
    }
  }

  lemma LackingStep(neighbors: seq<Neighbor>, i: nat, desc: DObjId)
    requires i < |neighbors|
    ensures Lacking(neighbors[..i + 1], desc)
            == if desc in neighbors[i].bloom then Lacking(neighbors[..i], desc)
               else Lacking(neighbors[..i], desc) + [neighbors[i].id]
  {
    assert neighbors[..i + 1] == neighbors[..i] + [neighbors[i]];
    LackingAppend(neighbors[..i], neighbors[i], desc);
    assert Lacking(neighbors[..i], desc) + [] == Lacking(neighbors[..i], desc);
  }

  lemma AttemptsSnoc(desc: DObjId, list0: seq<(NodeId, DObjId)>, ns: seq<NodeId>, n: NodeId)
    ensures (list0 + Attempts(desc, ns)) + [(n, desc)] == list0 + Attempts(desc, ns + [n])
  {
    AttemptsAppend(desc, ns, [n]);
  }

  lemma SendsToSnoc(desc: DObjId, acts0: seq<Action>, ns: seq<NodeId>, n: NodeId)
    ensures (acts0 + SendsTo(desc, ns)) + [SendDataObject(desc, n)] == acts0 + SendsTo(desc, ns + [n])
  {
    SendsToAppend(desc, ns, [n]);
  }

  lemma AttemptsAppend(desc: DObjId, a: seq<NodeId>, b: seq<NodeId>)
    ensures Attempts(desc, a + b) == Attempts(desc, a) + Attempts(desc, b)
  {
    assert forall j :: 0 <= j < |a| ==> (a + b)[j] == a[j];
    assert forall j :: |a| <= j < |a + b| ==> (a + b)[j] == b[j - |a|];
  }

  lemma SendsToAppend(desc: DObjId, a: seq<NodeId>, b: seq<NodeId>)
    ensures SendsTo(desc, a + b) == SendsTo(desc, a) + SendsTo(desc, b)
  {
    assert forall j :: 0 <= j < |a| ==> (a + b)[j] == a[j];
    assert forall j :: |a| <= j < |a + b| ==> (a + b)[j] == b[j - |a|];
  }

  lemma {:induction false} LackingAppend(ns: seq<Neighbor>, n: Neighbor, desc: DObjId)
    ensures Lacking(ns + [n], desc) == Lacking(ns, desc) + (if desc in n.bloom then [] else [n.id])
    decreases |ns|
  {
    if ns != [] {
      assert (ns + [n])[1..] == ns[1..] + [n];
      LackingAppend(ns[1..], n, desc);
    }
  }

  /** One description of the `onRetrieveNodeDescription` loop. */
  lemma SelectNewestStep(rs: seq<Description>, i: nat, k: nat, t: int, deletes: seq<Action>)
    requires 1 <= i < |rs| && k == Newest(rs, i) && t == LatestReceive(rs, i)
    requires deletes == DeleteActions(rs, Deleted(rs, i))
    ensures Newest(rs, i + 1) == if rs[i].createTime > rs[k].createTime then i else k
    ensures LatestReceive(rs, i + 1) == if rs[i].receiveTime > t then rs[i].receiveTime else t
    ensures DeleteActions(rs, Deleted(rs, i + 1))
            == deletes + [DeleteDataObject(rs[if rs[i].createTime > rs[k].createTime then k else i].dObj)]
  {
    DeleteActionsSnoc(rs, Deleted(rs, i), if rs[i].createTime > rs[k].createTime then k else i);
  }

  lemma DeleteActionsSnoc(rs: seq<Description>, ds: seq<nat>, d: nat)
    requires forall j :: 0 <= j < |ds| ==> ds[j] < |rs|
    requires d < |rs|
    ensures DeleteActions(rs, ds + [d]) == DeleteActions(rs, ds) + [DeleteDataObject(rs[d].dObj)]
  {
  }
}
