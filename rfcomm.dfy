/**
 * The WIDCOMM RFCOMM protocol (ProtocolRFCOMMWIDCOMM.cpp): the list of open
 * connections, and a client's receive path, where the Bluetooth stack's
 * callback writes incoming bytes into a circular buffer and posts a message on
 * a queue, and `receiveData` takes the message and drains the buffer.
 *
 * The head and tail of the circular buffer are counters that only grow; a byte
 * lives at its counter modulo the buffer size. ProtocolRFCOMMWIDCOMM.h is not
 * part of this model, so RFCOMM_DATA_BUFFER_SIZE is the `size` of a client.
 */
module Rfcomm {
  import opened Wrappers

  type Byte = bv8

  /** A Bluetooth device address. */
  type BdAddr = seq<Byte>

  // ---------------------------------------------------------------------------
  // The circular buffer

  /** The `count` bytes stored from counter `tail` on, in arrival order. */
  function RingView(buf: seq<Byte>, tail: nat, count: nat): (v: seq<Byte>)
    requires |buf| > 0
    ensures |v| == count
    ensures forall k :: 0 <= k < count ==> v[k] == buf[(tail + k) % |buf|]
  {
    seq(count, k requires 0 <= k < count => buf[(tail + k) % |buf|])
  }

  lemma MulBounds(n: int, k: int)
    requires n > 0
    ensures k >= 1 ==> n * k >= n
    ensures k <= -1 ==> n * k <= -n
    ensures k == 0 ==> n * k == 0
  {
  }

  /** Two counters less than a buffer size apart use different slots. */
  lemma DifferentSlots(a: nat, d: nat, n: nat)
    requires 0 < d < n
    ensures (a + d) % n != a % n
  {
    var k := (a + d) / n - a / n;
    assert n * ((a + d) / n) - n * (a / n) == n * k;
    assert (a + d) % n - a % n == d - n * k;
    MulBounds(n, k);
  }

  /** Writing a byte at the slot after the stored bytes appends it. */
  lemma RingPush(buf: seq<Byte>, tail: nat, count: nat, b: Byte)
    requires 0 < |buf| && count < |buf|
    ensures RingView(buf[(tail + count) % |buf| := b], tail, count + 1) == RingView(buf, tail, count) + [b]
  {
    var n := |buf|;
    var after := RingView(buf[(tail + count) % n := b], tail, count + 1);
    forall k | 0 <= k < count
      ensures after[k] == buf[(tail + k) % n]
    {
      DifferentSlots(tail + k, count - k, n);
    }
  }

  /** Taking the oldest byte leaves the rest in order. */
  lemma RingPop(buf: seq<Byte>, tail: nat, count: nat)
    requires 0 < |buf| && 0 < count
    ensures RingView(buf, tail, count) == [buf[tail % |buf|]] + RingView(buf, tail + 1, count - 1)
  {
    var v, w := RingView(buf, tail, count), RingView(buf, tail + 1, count - 1);
    forall k | 1 <= k < count
      ensures v[k] == w[k - 1]
    {
      assert tail + k == tail + 1 + (k - 1);
    }
  }

  /** Copying the next byte read into the destination. */
  lemma FillStep(stored: seq<Byte>, dst: seq<Byte>, n: nat)
    requires n < |stored| && n < |dst|
    ensures (stored[..n] + dst[n..])[n := stored[n]] == stored[..n + 1] + dst[n + 1..]
    ensures stored[n..] == [stored[n]] + stored[n + 1..]
  {
  }

  /** The destination after n bytes were read: those bytes, then what it
   *  held before. */
  lemma Filled(stored: seq<Byte>, dst: seq<Byte>, n: nat)
    requires n <= |stored| && n <= |dst|
    ensures (stored[..n] + dst[n..])[..n] == stored[..n]
    ensures (stored[..n] + dst[n..])[n..] == dst[n..]
  {
  }

  // ---------------------------------------------------------------------------
  // The message queue between the stack's callbacks and `receiveData`

  const QMsgData: nat := 0
  const QMsgConnectionSuccess: nat := 1
  const QMsgConnectionError: nat := 2

  /** A queue message: its type and, for data, the byte count it announces. */
  datatype QMsg = QMsg(msgType: nat, len: nat)

  /** What `receiveData` reports to the protocol layer. */
  datatype ProtocolEvent = Success | Failure | PeerClosed

  function Min(a: nat, b: nat): nat { if a <= b then a else b }

  class Client {
    /** RFCOMM_DATA_BUFFER_SIZE. */
    const size: nat
    const dataBuffer: array<Byte>
    var dbHead: nat
    var dbTail: nat
    /** The message queue, oldest first. */
    var queue: seq<QMsg>

    /** The tail never passes the head and the head is never more than a
     *  buffer ahead of it. */
    ghost predicate Valid()
      reads this
    {
      dataBuffer.Length == size && 0 < size && dbTail <= dbHead <= dbTail + size
    }

    /** The bytes waiting to be read, oldest first. */
    ghost function Stored(): seq<Byte>
      reads this, dataBuffer
      requires Valid()
    {
      RingView(dataBuffer[..], dbTail, dbHead - dbTail)
    }

    /** DATA_BUFFER_SPACE: free room in the buffer. The macro's arm for a head
     *  behind the tail is only reachable once the head counter wraps around,
     *  which the unbounded counters here never do. */
    function Space(): (free: nat)
      reads this
      requires Valid()
      ensures free + (dbHead - dbTail) == size
      ensures free == 0 <==> dbHead == dbTail + size
    {
      size - (dbHead - dbTail)
    }

    constructor (size: nat)
      requires 0 < size
      ensures Valid() && this.size == size && fresh(dataBuffer) && Stored() == [] && queue == []
    {
      this.size := size;
      dataBuffer := new Byte[size];
      dbHead, dbTail := 0, 0;
      queue := [];
    }

    /** `dataBufferBytesToRead`. */
    function BytesToRead(): (n: nat)
      reads this, dataBuffer
      requires Valid()
      ensures n == |Stored()| && n + Space() == size
    {
      size - Space()
    }

    /** `dataBufferIsEmpty` (DATA_BUFFER_EMPTY). */
    function IsEmpty(): (empty: bool)
      reads this, dataBuffer
      requires Valid()
      ensures empty <==> Stored() == []
      ensures empty <==> dbHead == dbTail
    {
      dbHead == dbTail
    }

    /** `dataBufferWrite`: copies as many leading bytes of `data` as there is
     *  room for and returns how many. */
    method Write(data: seq<Byte>) returns (n: nat)
      requires Valid()
      modifies this`dbHead, dataBuffer
      ensures Valid()
      ensures n == Min(|data|, old(Space()))
      ensures Stored() == old(Stored()) + data[..n]
      ensures dbTail == old(dbTail)
    {
      if Space() == 0 {
        return 0;
      }
      n := 0;
      while Space() > 0 && n < |data|
        invariant Valid() && dbTail == old(dbTail)
        invariant n <= |data| && dbHead == old(dbHead) + n
        invariant Stored() == old(Stored()) + data[..n]
        decreases |data| - n
      {
        RingPush(dataBuffer[..], dbTail, dbHead - dbTail, data[n]);
        dataBuffer[dbHead % size] := data[n];
        assert data[..n + 1] == data[..n] + [data[n]];
        dbHead := dbHead + 1;
        n := n + 1;
      }
    }

    /** `dataBufferRead`: moves up to `len` of the oldest bytes into `dst`. */
    method Read(dst: array<Byte>, len: nat) returns (n: nat)
      requires Valid() && len <= dst.Length && dst != dataBuffer
      modifies this`dbTail, dst
      ensures Valid() && dbHead == old(dbHead)
      ensures n == Min(len, |old(Stored())|)
      ensures dst[..n] == old(Stored())[..n] && dst[n..] == old(dst[n..])
      ensures Stored() == old(Stored())[n..]
    {
      if dbHead == dbTail {
        return 0;
      }
      ghost var stored0, dst0 := Stored(), dst[..];
      n := 0;
      while size - Space() > 0 && n < len
        invariant Valid() && n <= len && n <= |stored0| && dbTail == old(dbTail) + n
        invariant |stored0| - n == dbHead - dbTail
        invariant dst[..] == stored0[..n] + dst0[n..]
        invariant Stored() == stored0[n..]
        decreases len - n
      {
        FillStep(stored0, dst0, n);
        TakeOldest(dst, n);
        n := n + 1;
      }
      Filled(stored0, dst0, n);
    }

    /** One step of `dataBufferRead`: the oldest byte moves to `dst[i]`. */
    method TakeOldest(dst: array<Byte>, i: nat)
      requires Valid() && dbHead > dbTail && i < dst.Length && dst != dataBuffer
      modifies this`dbTail, dst
      ensures Valid() && dbTail == old(dbTail) + 1
      ensures dst[..] == old(dst[..])[i := old(Stored())[0]]
      ensures Stored() == old(Stored())[1..]
    {
      RingPop(dataBuffer[..], dbTail, dbHead - dbTail);
      dst[i] := dataBuffer[dbTail % size];
      dbTail := dbTail + 1;
    }

    /** `OnDataReceived`: buffers what fits and, when at least one byte was
     *  buffered, posts a data message announcing how many; `queueAccepts` says
     *  whether posting succeeds. */
    method OnDataReceived(data: seq<Byte>, queueAccepts: bool)
      requires Valid()
      modifies this`dbHead, this`queue, dataBuffer
      ensures Valid() && dbTail == old(dbTail)
      ensures var n := Min(|data|, old(Space()));
        Stored() == old(Stored()) + data[..n]
        && queue == old(queue) + if n > 0 && queueAccepts then [QMsg(QMsgData, n)] else []
    {
      var n := Write(data);
      if n == 0 {
        return;
      }
      if queueAccepts {
        queue := queue + [QMsg(QMsgData, n)];
      }
    }

    /** `receiveData`: takes the oldest queue message. A data message drains up
     *  to `len` bytes into `dst` and, if bytes remain, posts a new data message
     *  for them. An empty queue stands for a failed queue read; `pipeConnected`
     *  is what the failure reports. */
    method ReceiveData(dst: array<Byte>, len: nat, pipeConnected: bool, requeueOk: bool)
      returns (ev: ProtocolEvent, bytes: nat)
      requires Valid() && len <= dst.Length && dst != dataBuffer
      modifies this`dbTail, this`queue, dst
      ensures Valid() && dbHead == old(dbHead)
      ensures old(queue) == [] ==> ev == (if pipeConnected then Failure else PeerClosed) && bytes == 0
      ensures old(queue) == [] || old(queue)[0].msgType != QMsgData ==>
        bytes == 0 && dbTail == old(dbTail) && queue == (if old(queue) == [] then [] else old(queue)[1..])
      ensures old(queue) != [] && old(queue)[0].msgType == QMsgConnectionSuccess ==> ev == Success
      ensures old(queue) != [] && old(queue)[0].msgType == QMsgConnectionError ==> ev == PeerClosed
      ensures old(queue) != [] && old(queue)[0].msgType > QMsgConnectionError ==> ev == Failure
      ensures old(queue) != [] && old(queue)[0].msgType == QMsgData ==>
        ev == Success
        && bytes == Min(len, |old(Stored())|)
        && dst[..bytes] == old(Stored())[..bytes]
        && Stored() == old(Stored())[bytes..]
        && queue == old(queue)[1..] + if Stored() != [] && requeueOk then [QMsg(QMsgData, |Stored()|)] else []
    {
      bytes := 0;
      if queue == [] {
        return if pipeConnected then Failure else PeerClosed, 0;
      }
      var msg := queue[0];
      queue := queue[1..];
      if msg.msgType == QMsgConnectionSuccess {
        return Success, 0;
      } else if msg.msgType == QMsgConnectionError {
        return PeerClosed, 0;
      } else if msg.msgType != QMsgData {
        return Failure, 0;
      }
      bytes := Read(dst, len);
      if !IsEmpty() {
        if requeueOk {
          queue := queue + [QMsg(QMsgData, BytesToRead())];
        }
      }
      return Success, bytes;
    }
  }

  // ---------------------------------------------------------------------------
  // The connection list

  /** An RFCOMM connection. `remote` is what `getRemoteAddr` yields, if
   *  anything. */
  class Connection {
    const remote: Option<BdAddr>
    var isAssigned: bool

    constructor (remote: Option<BdAddr>)
      ensures this.remote == remote && !isAssigned
    {
      this.remote := remote;
      isAssigned := false;
    }
  }

  /** The position of the first connection whose remote address is `addr`. */
  function FindAddr(conns: seq<Connection>, addr: BdAddr): (r: Option<nat>)
    ensures r.Some? ==> r.value < |conns| && conns[r.value].remote == Some(addr)
    ensures r.Some? ==> forall j :: 0 <= j < r.value ==> conns[j].remote != Some(addr)
    ensures r.None? <==> forall j :: 0 <= j < |conns| ==> conns[j].remote != Some(addr)
  {
    if conns == [] then None
    else if conns[0].remote == Some(addr) then Some(0)
    else
      var r := FindAddr(conns[1..], addr);
      assert forall j :: 1 <= j < |conns| ==> conns[j] == conns[1..][j - 1];
      if r.Some? then Some(r.value + 1) else None
  }

  /** Every listed connection has a remote address and no two share one. */
  predicate UniqueAddrs(conns: seq<Connection>)
  {
    (forall j :: 0 <= j < |conns| ==> conns[j].remote.Some?)
    && forall i, j :: 0 <= i < j < |conns| ==> conns[i].remote != conns[j].remote
  }

  /** `list::remove`: drops every occurrence of c. */
  function Without(conns: seq<Connection>, c: Connection): (r: seq<Connection>)
    ensures c !in r
    ensures forall j :: 0 <= j < |r| ==> r[j] in conns
    ensures forall j :: 0 <= j < |conns| && conns[j] != c ==> conns[j] in r
    ensures |r| <= |conns|
  {
    if conns == [] then []
    else if conns[0] == c then Without(conns[1..], c)
    else [conns[0]] + Without(conns[1..], c)
  }

  /** Adding a connection the way `addConnection` does keeps addresses unique. */
  lemma AddKeepsUnique(conns: seq<Connection>, c: Connection)
    requires UniqueAddrs(conns) && c.remote.Some? && FindAddr(conns, c.remote.value).None?
    ensures UniqueAddrs(conns + [c])
  {
  }

  /** Removing connections keeps addresses unique. */
  lemma {:induction false} RemoveKeepsUnique(conns: seq<Connection>, c: Connection)
    requires UniqueAddrs(conns)
    ensures UniqueAddrs(Without(conns, c))
    decreases |conns|
  {
    if conns != [] {
      assert UniqueAddrs(conns[1..]);
      RemoveKeepsUnique(conns[1..], c);
      var rest := Without(conns[1..], c);
      if conns[0] != c {
        forall j | 0 <= j < |rest|
          ensures conns[0].remote != rest[j].remote
        {
          assert rest[j] in conns[1..];
          var i :| 0 <= i < |conns[1..]| && conns[1..][i] == rest[j];
          assert conns[i + 1] == rest[j];
        }
        ConsKeepsUnique(conns[0], rest);
      }
    }
  }

  lemma ConsKeepsUnique(c: Connection, conns: seq<Connection>)
    requires UniqueAddrs(conns) && c.remote.Some?
    requires forall j :: 0 <= j < |conns| ==> c.remote != conns[j].remote
    ensures UniqueAddrs([c] + conns)
  {
    var r := [c] + conns;
    assert forall j :: 1 <= j < |r| ==> r[j] == conns[j - 1];
  }

  /** The first connection in the list that is not yet assigned. */
  function FirstUnassigned(conns: seq<Connection>): (r: Option<nat>)
    reads set j | 0 <= j < |conns| :: conns[j]
    ensures r.Some? ==> r.value < |conns| && !conns[r.value].isAssigned
    ensures r.Some? ==> forall j :: 0 <= j < r.value ==> conns[j].isAssigned
    ensures r.None? ==> forall j :: 0 <= j < |conns| ==> conns[j].isAssigned
  {
    if conns == [] then None
    else if !conns[0].isAssigned then Some(0)
    else
      var r := FirstUnassigned(conns[1..]);
      assert forall j :: 1 <= j < |conns| ==> conns[j] == conns[1..][j - 1];
      if r.Some? then Some(r.value + 1) else None
  }

  /** The protocol's static connection list. */
  class ConnectionList {
    var connections: seq<Connection>

    ghost predicate Valid()
      reads this
    {
      UniqueAddrs(connections)
    }

    constructor ()
      ensures Valid() && connections == []
    {
      connections := [];
    }

    /** `_getConnection`: the first listed connection with remote address
     *  `addr`, or null. */
    method GetConnection(addr: BdAddr) returns (c: Connection?)
      ensures c == (if FindAddr(connections, addr).Some? then connections[FindAddr(connections, addr).value] else null)
    {
      var k := 0;
      while k < |connections|
        invariant 0 <= k <= |connections|
        invariant forall j :: 0 <= j < k ==> connections[j].remote != Some(addr)
      {
        if connections[k].remote == Some(addr) {
          return connections[k];
        }
        k := k + 1;
      }
      return null;
    }

    /** `hasConnection(addr)`. */
    method HasConnectionAddr(addr: BdAddr) returns (has: bool)
      ensures has <==> exists j :: 0 <= j < |connections| && connections[j].remote == Some(addr)
    {
      var c := GetConnection(addr);
      has := c != null;
    }

    /** `hasConnection(c)`: false when c has no remote address; otherwise
     *  whether some listed connection has c's address. */
    method HasConnection(c: Connection) returns (has: bool)
      ensures c.remote.None? ==> !has
      ensures c.remote.Some? ==>
        (has <==> exists j :: 0 <= j < |connections| && connections[j].remote == c.remote)
    {
      if c.remote.None? {
        return false;
      }
      has := HasConnectionAddr(c.remote.value);
    }

    /** `addConnection`: refuses a connection without a remote address or
     *  whose address is already listed, and otherwise appends it. */
    method AddConnection(c: Connection) returns (added: bool)
      requires Valid()
      modifies this
      ensures Valid()
      ensures added <==> c.remote.Some? && FindAddr(old(connections), c.remote.value).None?
      ensures connections == if added then old(connections) + [c] else old(connections)
    {
      if c.remote.None? {
        return false;
      }
      var existing := GetConnection(c.remote.value);
      if existing != null {
        return false;
      }
      AddKeepsUnique(connections, c);
      connections := connections + [c];
      return true;
    }

    /** `getFirstUnassignedConnection`. */
    method GetFirstUnassignedConnection() returns (c: Connection?)
      ensures c == (if FirstUnassigned(connections).Some? then connections[FirstUnassigned(connections).value] else null)
    {
      var k := 0;
      while k < |connections|
        invariant 0 <= k <= |connections|
        invariant forall j :: 0 <= j < k ==> connections[j].isAssigned
      {
        if !connections[k].isAssigned {
          return connections[k];
        }
        k := k + 1;
      }
      return null;
    }

    /** `removeConnection`: removes every occurrence of c. */
    method RemoveConnection(c: Connection)
      requires Valid()
      modifies this
      ensures Valid()
      ensures connections == Without(old(connections), c)
    {
      var conns := connections;
      RemoveKeepsUnique(conns, c);
      var kept: seq<Connection> := [];
      var k := 0;
      while k < |conns|
        invariant 0 <= k <= |conns|
        invariant kept + Without(conns[k..], c) == Without(conns, c)
      {
        assert conns[k..][1..] == conns[k + 1..];
        if conns[k] != c {
          kept := kept + [conns[k]];
        }
        k := k + 1;
      }
      assert conns[k..] == [];
      assert kept == Without(conns, c);
      connections := kept;
    }
  }
}
