/**
 * The rank forwarder (ForwarderRank.cpp): each node has a rank taken from its
 * identifier, and a data object is delegated to every known node whose rank is
 * higher than this node's.
 */
module ForwarderRank {
  import opened Wrappers
  import Event

  /** One entry of the `ranks` map, in the map's iteration order. */
  datatype RankEntry = RankEntry(nodeId: string, rank: int)

  predicate DistinctIds(ranks: seq<RankEntry>)
  {
    forall i, j :: 0 <= i < j < |ranks| ==> ranks[i].nodeId != ranks[j].nodeId
  }

  /** The rank of a node: the code of the first character of its identifier
   *  string (the terminating zero for an empty identifier). */
  function RankOf(idStr: string): (r: int)
    ensures idStr != [] ==> r == idStr[0] as int
    ensures idStr == [] ==> r == 0
  {
    if idStr == [] then 0 else idStr[0] as int
  }

  /** The delegates for a data object: one peer node per entry ranked strictly
   *  higher than `myRank`, in map order. */
  function Delegates(ranks: seq<RankEntry>, myRank: int): (ds: seq<Event.NodeRef>)
    ensures |ds| <= |ranks|
    ensures forall id :: Event.NodeRef(id) in ds <==>
      exists j :: 0 <= j < |ranks| && ranks[j].nodeId == id && ranks[j].rank > myRank
    ensures (forall j :: 0 <= j < |ranks| ==> ranks[j].rank <= myRank) <==> ds == []
  {
    if ranks == [] then []
    else
      var rest := Delegates(ranks[1..], myRank);
      assert forall j :: 1 <= j < |ranks| ==> ranks[j] == ranks[1..][j - 1];
      if ranks[0].rank > myRank then [Event.NodeRef(ranks[0].nodeId)] + rest else rest
  }

  /** With distinct node identifiers, every higher-ranked node is delegated to
   *  exactly once. */
  lemma {:induction false} DelegatesDistinct(ranks: seq<RankEntry>, myRank: int)
    requires DistinctIds(ranks)
    ensures forall i, j :: 0 <= i < j < |Delegates(ranks, myRank)| ==>
      Delegates(ranks, myRank)[i] != Delegates(ranks, myRank)[j]
    decreases |ranks|
  {
    if ranks != [] {
      DelegatesDistinct(ranks[1..], myRank);
      var rest := Delegates(ranks[1..], myRank);
      if ranks[0].rank > myRank {
        forall j | 0 <= j < |ranks[1..]|
          ensures ranks[1..][j].nodeId != ranks[0].nodeId
        {
          assert ranks[1..][j] == ranks[j + 1];
        }
        assert Event.NodeRef(ranks[0].nodeId) !in rest;
      }
    }
  }

  class ForwarderRank {
    const myRank: int
    /** The routing table; nothing in the rank forwarder writes it. */
    var ranks: seq<RankEntry>
    /** Events posted to the kernel, oldest first. */
    var events: seq<Event.Event>

    /** The constructor: the rank comes from this node's identifier string. */
    constructor (thisNodeIdStr: string, ranks: seq<RankEntry>)
      ensures myRank == RankOf(thisNodeIdStr) && this.ranks == ranks && events == []
    {
      myRank := RankOf(thisNodeIdStr);
      this.ranks := ranks;
      events := [];
    }

    /** `addRoutingInformation`: the rank forwarder adds nothing to outgoing
     *  metadata and reports that it did not. */
    method AddRoutingInformation() returns (added: bool)
      ensures !added
    {
      return false;
    }

    /** `generateDelegatesFor`: collects the delegates and posts one
     *  DELEGATE_NODES event for them, or nothing when there are none. */
    method GenerateDelegatesFor(dObj: Event.DataObjectRef, target: Event.NodeRef)
      modifies this`events
      ensures var ds := Delegates(ranks, myRank);
        events == old(events) + if ds == [] then [] else
          [Event.WithDataObjectNodeAndList(Event.DelegateNodes, Some(dObj), Some(target), ds, 0).value]
    {
      var delegates: seq<Event.NodeRef> := [];
      var k := 0;
      while k < |ranks|
        invariant 0 <= k <= |ranks|
        invariant delegates + Delegates(ranks[k..], myRank) == Delegates(ranks, myRank)
      {
        assert ranks[k..][1..] == ranks[k + 1..];
        if ranks[k].rank > myRank {
          delegates := delegates + [Event.NodeRef(ranks[k].nodeId)];
        }
        k := k + 1;
      }
      assert ranks[k..] == [];
      assert delegates == Delegates(ranks, myRank);
      if delegates != [] {
        var e := Event.WithDataObjectNodeAndList(Event.DelegateNodes, Some(dObj), Some(target), delegates, 0);
        events := events + [e.value];
        assert e.value == Event.WithDataObjectNodeAndList(Event.DelegateNodes, Some(dObj), Some(target), Delegates(ranks, myRank), 0).value;
      }
    }
  }
}
