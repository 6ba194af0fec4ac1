# Haggle core, modelled in Dafny

Haggle is a data-centric networking system for opportunistic networks. Nodes
exchange *data objects*: an XML metadata header, sometimes followed by a file
payload. The kernel matches data objects against the interests of nodes and
against registered filters, and forwards them to neighbours when they are in
contact. This project models the parts of the kernel and its libraries that
carry that logic:

- `heap.dfy` (module `Heap`): the binary min-heap of `libcpphaggle`, used for
  timers and priority queues. It is a class over an array of items, and each
  item keeps its own index in that array.
- `handle.dfy` (module `Handle`): the Java application handle. It covers the
  daemon status codes, registration, and a `dispose` that frees the native
  handle at most once.
- `forwarderrank.dfy` (module `ForwarderRank`): the rank forwarder. A node's
  rank is the first character of its id. Delegates are the known nodes whose
  rank is higher.
- `rfcomm.dfy` (module `Rfcomm`): the WIDCOMM RFCOMM protocol. It covers the
  client's circular receive buffer, the message queue that feeds
  `receiveData`, and the global list of connections kept unique by Bluetooth
  address.
- `metadata.dfy` (module `Metadata`): the C metadata tree of `libhaggle`. It
  covers names, content, parameters, children, and the child iterator with its
  name filter.
- `decimal.dfy` (module `Decimal`): the decimal text of non-negative integers
  that the kernel writes with `%lu` and reads back with `strtoul`/`atoi`.
- `dataobject.dfy` (module `DataObject`): the data object, which covers:
  - its attributes and their metadata encoding;
  - the persistent flag, data length and file hash;
  - payload verification and the hex id string;
  - the numbered file path;
  - `putData`, the incremental reception (header, then payload);
  - the retriever that serves header and payload to a sender.
- `event.dfy` (module `Event`): kernel events. It covers:
  - the typed constructors and which payloads each type accepts;
  - the one-line description;
  - the registry of private event types.
- `nodemanager.dfy` (module `NodeManager`): the node manager. It sends this
  node's description to neighbours that lack it, tracks those sends, drops
  neighbour interfaces, and merges duplicate node descriptions.
- `sqltables.dfy` (module `SQLTables`): the SQLite schema of the data store.
  Tables are sequences of rows. The invariant that its triggers maintain
  (attribute counts and weight sums, unique keys) is `Valid`, and each
  insert and delete is proved to keep it. The filter and matching views are
  predicates.
- `sqldatastore.dfy` (module `SQLDataStore`): the data store operations as a
  class over those tables:
  - inserting and deleting filters, nodes and data objects;
  - evaluating filters and data objects into events;
  - the data-object, multi-node and node queries;
  - the repository.

The outside world is handled as follows:
- Sockets, files, SQLite, the XML parser, SHA1 and the clock are not called.
  What they return is a parameter of the operation: the bytes read, a success
  flag, a parsed header, a digest, or the row order a view produces.
- What the kernel hands back to the event loop is recorded as a sequence of
  events or actions on the owning object.

## Model

| member | source | states |
|---|---|---|
| Heap.RootIsMinimum | src/libcpphaggle/Heap.cpp:99-113 | in a min-heap the root's metric is at most every entry's metric |
| Heap.RootIsMinimumOf | src/libcpphaggle/Heap.cpp:99-113 | the root of a non-empty min-heap is a minimum of its contents |
| Heap.SiftDown | src/libcpphaggle/Heap.cpp:22-48 | sifting down keeps the length and leaves no empty slot |
| Heap.SiftDownRestoresHeap | src/libcpphaggle/Heap.cpp:22-48 | a sequence that is a heap except at i becomes a min-heap after heapify(i) |
| Heap.SiftDownPermutes | src/libcpphaggle/Heap.cpp:41-47 | heapify only rearranges the items (same multiset) |
| Heap.HeapWhenNoSmallerChild | src/libcpphaggle/Heap.cpp:38-39 | when no child is smaller than position i, heapify may stop: the sequence is already a min-heap |
| Heap.SiftUp | src/libcpphaggle/Heap.cpp:82-93 | moving the new item up keeps the length and fills the hole |
| Heap.SiftUpRestoresHeap | src/libcpphaggle/Heap.cpp:82-94 | from a heap with a hole at i whose ancestors are larger than the item, placing the item yields a min-heap |
| Heap.SiftUpPermutes | src/libcpphaggle/Heap.cpp:85-93 | the sift-up result holds the old items with the new item in place of the hole |
| Heap.Lowered | src/libcpphaggle/Heap.cpp:106-109 | extraction moves the last item to the root and drops one slot; every other position is unchanged |
| Heap.LoweredAlmostHeap | src/libcpphaggle/Heap.cpp:106-110 | after moving the last item to the root, the heap property holds everywhere except at the root |
| Heap.LoweredPermutes | src/libcpphaggle/Heap.cpp:106-109 | the lowered sequence plus the old root is the old multiset |
| Heap.ExtractKeepsHeap | src/libcpphaggle/Heap.cpp:99-113 | extractFirst leaves a min-heap holding exactly the old items minus the root |
| Heap.InsertKeepsHeap | src/libcpphaggle/Heap.cpp:71-97 | insert leaves a min-heap holding exactly the old items plus the new one |
| Heap.Heap.IncreaseSize | src/libcpphaggle/Heap.cpp:50-69 | on allocation failure returns -1 with nothing changed; otherwise a fresh larger array keeps the stored items and the new size is returned |
| Heap.Heap.Swap | src/libcpphaggle/Heap.cpp:41-46 | exchanges two entries and their stored indexes, so every item still knows its position |
| Heap.Heap.Heapify | src/libcpphaggle/Heap.cpp:22-48 | the array prefix becomes SiftDown of its old value; indexes stay correct |
| Heap.Heap.Insert | src/libcpphaggle/Heap.cpp:71-97 | returns -1 exactly when the heap is full and cannot grow (and then changes nothing); otherwise 0, one more item, contents equal to the sift-up of the old contents plus the item |
| Heap.Heap.PlaceNew | src/libcpphaggle/Heap.cpp:82-94 | places the item by sift-up from the new last slot, keeping every stored index |
| Heap.Heap.ExtractFirst | src/libcpphaggle/Heap.cpp:99-113 | empty heap: null and nothing changes; otherwise returns the old root, a minimum of the old contents, with one item fewer and the heap invariant kept |
| Heap.Heap.RemoveRoot | src/libcpphaggle/Heap.cpp:106-110 | the new contents are the sift-down of the lowered old contents |
| Handle.StatusCode | src/libhaggle/jni/java/org/haggle/Handle.java:33-40 | each daemon status has its own code: error -100, not running 0, running 1, crashed 2 |
| Handle.StatusFromCode | src/libhaggle/jni/java/org/haggle/Handle.java:33-40 | a code maps back to the status that has it, and to none exactly when it is not one of the four codes |
| Handle.StatusCodesDistinct | src/libhaggle/jni/java/org/haggle/Handle.java:33-40 | StatusCode is injective and StatusFromCode inverts it |
| Handle.Handle.constructor | src/libhaggle/jni/java/org/haggle/Handle.java:50-58 | a registered handle keeps its name and is not disposed |
| Handle.Handle.Dispose | src/libhaggle/jni/java/org/haggle/Handle.java:65-71 | after dispose the handle is disposed and the native handle has been freed exactly once, however often dispose is called |
| Handle.Handle.Finalize | src/libhaggle/jni/java/org/haggle/Handle.java:72-76 | finalisation disposes and never frees a second time |
| Handle.NewHandle | src/libhaggle/jni/java/org/haggle/Handle.java:50-58 | registration fails, carrying the native return value, exactly when getHandle returns non-zero; otherwise a fresh undisposed handle |
| ForwarderRank.RankOf | src/hagglekernel/ForwarderRank.cpp:21-22 | the rank is the first character's code, and 0 for an empty id (the terminating NUL) |
| ForwarderRank.Delegates | src/hagglekernel/ForwarderRank.cpp:86-91 | a node is a delegate exactly when its rank is higher than this node's; the list is empty exactly when no rank is higher |
| ForwarderRank.DelegatesDistinct | src/hagglekernel/ForwarderRank.cpp:86-91 | with distinct node ids in the rank map, no delegate appears twice |
| ForwarderRank.ForwarderRank.constructor | src/hagglekernel/ForwarderRank.cpp:18-41 | the forwarder's rank is RankOf this node's id |
| ForwarderRank.ForwarderRank.AddRoutingInformation | src/hagglekernel/ForwarderRank.cpp:47-67 | never adds routing information |
| ForwarderRank.ForwarderRank.GenerateDelegatesFor | src/hagglekernel/ForwarderRank.cpp:82-95 | posts one DELEGATE_NODES event with the delegates when there are any, and nothing otherwise |
| Rfcomm.RingView | src/hagglekernel/ProtocolRFCOMMWIDCOMM.cpp:311-343 | the bytes stored in the ring are the count bytes from the tail onwards, wrapping at the buffer end |
| Rfcomm.RingPush | src/hagglekernel/ProtocolRFCOMMWIDCOMM.cpp:322 | writing one byte at the head appends it to the stored bytes |
| Rfcomm.RingPop | src/hagglekernel/ProtocolRFCOMMWIDCOMM.cpp:339 | reading at the tail removes the first stored byte |
| Rfcomm.Client.Space | src/hagglekernel/ProtocolRFCOMMWIDCOMM.cpp:253 | free space plus stored bytes equals the buffer size; no space exactly when the buffer is full |
| Rfcomm.Client.constructor | src/hagglekernel/ProtocolRFCOMMWIDCOMM.cpp:282-299 | a new client has an empty buffer and an empty message queue |
| Rfcomm.Client.BytesToRead | src/hagglekernel/ProtocolRFCOMMWIDCOMM.cpp:345-350 | the number of stored bytes, which with the free space makes up the buffer |
| Rfcomm.Client.IsEmpty | src/hagglekernel/ProtocolRFCOMMWIDCOMM.cpp:352-357 | empty exactly when nothing is stored (head equals tail) |
| Rfcomm.Client.Write | src/hagglekernel/ProtocolRFCOMMWIDCOMM.cpp:311-326 | writes min(len, space) bytes, which are appended to the stored bytes in order |
| Rfcomm.Client.Read | src/hagglekernel/ProtocolRFCOMMWIDCOMM.cpp:328-343 | reads min(len, stored) bytes: they are the oldest stored bytes, they are removed, and the rest of the destination is untouched |
| Rfcomm.Client.TakeOldest | src/hagglekernel/ProtocolRFCOMMWIDCOMM.cpp:339 | one byte moved: the destination slot receives the oldest stored byte, which leaves the buffer, and no other slot changes |
| Rfcomm.Client.OnDataReceived | src/hagglekernel/ProtocolRFCOMMWIDCOMM.cpp:412-438 | stores what fits in the buffer and queues a data message only when bytes were stored |
| Rfcomm.Client.ReceiveData | src/hagglekernel/ProtocolRFCOMMWIDCOMM.cpp:499-561 | maps the first queued message to the protocol event: no message gives failure or peer-closed, connection success and error messages give success and peer-closed, data gives the bytes read from the buffer |
| Rfcomm.Connection.constructor | src/hagglekernel/ProtocolRFCOMMWIDCOMM.cpp:43-46 | a new connection is unassigned |
| Rfcomm.FindAddr | src/hagglekernel/ProtocolRFCOMMWIDCOMM.cpp:186-195 | the first connection with that remote address, or none exactly when no connection has it |
| Rfcomm.Without | src/hagglekernel/ProtocolRFCOMMWIDCOMM.cpp:242-247 | removing a connection drops it and keeps every other one |
| Rfcomm.AddKeepsUnique | src/hagglekernel/ProtocolRFCOMMWIDCOMM.cpp:215-229 | adding a connection whose address is not listed keeps addresses unique |
| Rfcomm.RemoveKeepsUnique | src/hagglekernel/ProtocolRFCOMMWIDCOMM.cpp:242-247 | removal keeps addresses unique |
| Rfcomm.FirstUnassigned | src/hagglekernel/ProtocolRFCOMMWIDCOMM.cpp:231-240 | the first unassigned connection, or none exactly when all are assigned |
| Rfcomm.ConnectionList.constructor | src/hagglekernel/ProtocolRFCOMMWIDCOMM.cpp:108 | the connection list starts empty |
| Rfcomm.ConnectionList.GetConnection | src/hagglekernel/ProtocolRFCOMMWIDCOMM.cpp:186-195 | returns the first connection to that address, or null |
| Rfcomm.ConnectionList.HasConnectionAddr | src/hagglekernel/ProtocolRFCOMMWIDCOMM.cpp:209-213 | true exactly when some connection has that address |
| Rfcomm.ConnectionList.HasConnection | src/hagglekernel/ProtocolRFCOMMWIDCOMM.cpp:197-207 | true exactly when the connection has an address that some listed connection has |
| Rfcomm.ConnectionList.AddConnection | src/hagglekernel/ProtocolRFCOMMWIDCOMM.cpp:215-229 | appends exactly when the connection has an address not yet listed; otherwise the list is unchanged; uniqueness is kept |
| Rfcomm.ConnectionList.GetFirstUnassignedConnection | src/hagglekernel/ProtocolRFCOMMWIDCOMM.cpp:231-240 | returns the first unassigned connection, or null |
| Rfcomm.ConnectionList.RemoveConnection | src/hagglekernel/ProtocolRFCOMMWIDCOMM.cpp:242-247 | the list becomes the list without that connection |
| Metadata.FindParam | src/libhaggle/metadata.c:288-313 | the position of the first parameter with that name, or none exactly when no parameter has it |
| Metadata.LookupUpsert | src/libhaggle/metadata.c:288-321 | after setting a parameter, getting it returns the new value and every other parameter reads as before; the list grows only for a new name |
| Metadata.Seek | src/libhaggle/metadata.c:20-49 | the iterator stops at the first child at or after the start that passes the name filter, or at the end |
| Metadata.Walk | src/libhaggle/metadata.c:63-88 | the iterator never goes past the end |
| Metadata.RemainingFromSeek | src/libhaggle/metadata.c:20-50 | the children left to visit are the child Seek finds followed by those after it |
| Metadata.WalkVisitsPassing | src/libhaggle/metadata.c:63-88 | after n steps the iterator is at the n-th passing child, in list order, and then stays at the end |
| Metadata.InitFilterAsWritten | src/libhaggle/metadata.c:29-37 | as written: a NULL or empty name leaves the previous filter in place |
| Metadata.InitFilter | src/libhaggle/metadata.c:29-37 | a NULL or empty name means no filter; otherwise the filter is the name |
| Metadata.StaleFilterSkipsChildren | src/libhaggle/metadata.c:20-88 | as written, get(m,"a") then get(m,NULL) skips child "b"; with the reset the iteration visits it |
| Metadata.Metadata.constructor | src/libhaggle/metadata.c:98-128 | a new node has the given name and content, no children or parameters, and is its own parent when none is given |
| Metadata.NameIs | src/libhaggle/metadata.c:156-165 | -1 for no node, 1 when the name matches, 0 otherwise |
| Metadata.SetName | src/libhaggle/metadata.c:177-197 | no node or no name: NULL and nothing changes; otherwise the new name is set and returned; every other field of the node is as before |
| Metadata.SetContent | src/libhaggle/metadata.c:199-220 | no node or no content: NULL and nothing changes; otherwise the new content is set and returned; every other field of the node is as before |
| Metadata.Add | src/libhaggle/metadata.c:266-276 | -1 without both nodes; otherwise the child is appended to the parent's list, its parent set, and the new count returned; no other field of either node changes |
| Metadata.Detached | src/libhaggle/metadata.c:278-286 | detaching a listed child shortens the list by one; an unlisted one leaves it as it is |
| Metadata.Detach | src/libhaggle/metadata.c:278-286 | -1 without both nodes; otherwise the child leaves the list that holds it (that of the node it records as parent), only this parent's count goes down and is returned, and no other field changes; a consistent count stays consistent |
| Metadata.SetParameter | src/libhaggle/metadata.c:288-313 | -1 without node, name or value; otherwise 0 when an existing parameter was overwritten and 1 when a new one was appended; only the parameters change |
| Metadata.GetParameter | src/libhaggle/metadata.c:315-321 | the value of the named parameter, or NULL |
| Metadata.Get | src/libhaggle/metadata.c:254-264 | restarts the iterator with the corrected name filter (InitFilter) and returns the first passing child, or NULL; only the iterator fields change |
| Metadata.GetNext | src/libhaggle/metadata.c:241-252 | NULL when the iterator was not started or is at the end; otherwise moves to the next passing child and returns it; only the iterator position changes |
| Metadata.SeekChild | src/libhaggle/metadata.c:42-47 | the search loop of the iterator (also at lines 81-84) stops exactly where Seek says: the first child from the start on whose name is the filter, or the end |
| Decimal.Format | src/hagglekernel/DataObject.cpp:1202-1206 | decimal text is non-empty, all digits, and has no leading zero |
| Decimal.Parse | src/hagglekernel/DataObject.cpp:1008 | strtoul: never above ULONG_MAX |
| Decimal.ParseFormat | src/hagglekernel/DataObject.cpp:1008 | reading back the printed decimal of any number an unsigned long holds gives the number |
| Decimal.ParseNoDigits | src/hagglekernel/DataObject.cpp:1008 | text with no digit, sign or white space reads as 0 |
| Decimal.ParseSkipsSpaceAndPlus | src/hagglekernel/DataObject.cpp:1008 | leading white space and a '+' sign are skipped |
| Decimal.ParseNegates | src/hagglekernel/DataObject.cpp:1008 | a '-' sign negates modulo 2^64, so "-1" reads as ULONG_MAX |
| Decimal.ParseSaturates | src/hagglekernel/DataObject.cpp:925 | a number beyond ULONG_MAX reads as ULONG_MAX, with or without a '-' |
| Decimal.FormatInjective | src/hagglekernel/Event.cpp:738 | different numbers print differently |
| DataObject.EraseAttr | src/hagglekernel/DataObject.cpp:755-763 | removes exactly the attributes equal (by name and value) to the given one; shorter exactly when one was present |
| DataObject.EraseName | src/hagglekernel/DataObject.cpp:765-780 | removes exactly the attributes with that name; shorter exactly when one had it |
| DataObject.EraseAdded | src/hagglekernel/DataObject.cpp:736-763 | removing an attribute just added to a list that lacked it restores the list |
| DataObject.EncodeWeight | src/hagglekernel/DataObject.cpp:1202-1206 | the weight parameter is written exactly when the weight is not 1 |
| DataObject.DecodeWeight | src/hagglekernel/DataObject.cpp:1008 | a missing weight parameter means weight 1; otherwise the decimal value |
| DataObject.WeightRoundTrip | src/hagglekernel/DataObject.cpp:1202-1206 | decoding an encoded weight gives back any weight an unsigned long holds |
| DataObject.EncodePersistent | src/hagglekernel/DataObject.cpp:1120 | the flag is written as "yes" or "no", "no" exactly for a non-persistent object |
| DataObject.DecodePersistent | src/hagglekernel/DataObject.cpp:887-889 | a missing flag keeps the current value; any text other than "no" means persistent |
| DataObject.PersistentRoundTrip | src/hagglekernel/DataObject.cpp:887-889 | decoding the encoded flag gives the flag back |
| DataObject.DecodeAttr | src/hagglekernel/DataObject.cpp:1005-1010 | an attribute element gives name, value (the content) and decoded weight |
| DataObject.EncodeAttr | src/hagglekernel/DataObject.cpp:1197-1206 | an attribute becomes an element with its name, value as content, and encoded weight |
| DataObject.AttrRoundTrip | src/hagglekernel/DataObject.cpp:1197-1206 | decoding an encoded attribute gives it back |
| DataObject.EncodeAttrs | src/hagglekernel/DataObject.cpp:1197-1209 | one element per attribute, in order |
| DataObject.MergeAttrs | src/hagglekernel/DataObject.cpp:1003-1019 | parsing keeps every existing attribute and adds each parsed one |
| DataObject.AddParsedAttrs | src/hagglekernel/DataObject.cpp:1003-1019 | the attribute loop of parseMetadata yields MergeAttrs of the old attributes and the parsed entries |
| DataObject.AttrsRoundTrip | src/hagglekernel/DataObject.cpp:1003-1019 | parsing the encoded attributes of a duplicate-free list into an empty object gives the same list |
| DataObject.WithDataLen | src/hagglekernel/DataObject.cpp:353-359 | setting a data length marks the data as not verified when the length is positive and changes nothing else |
| DataObject.Parsed | src/hagglekernel/DataObject.cpp:877-1021 | parsing the header sets the persistent flag, data length, file hash (marking the data not verified) and attributes from their elements |
| DataObject.Encoded | src/hagglekernel/DataObject.cpp:1115-1209 | a header written afresh from the fields carries the persistent flag, a data length exactly when there is data in a file, a file hash exactly when one is known, and the attributes |
| DataObject.MetadataRoundTrip | src/hagglekernel/DataObject.cpp:1115-1209 | parsing the metadata the object writes gives back its persistent flag, data length, hash and attributes, when the weights and the length fit an unsigned long |
| DataObject.Verify | src/hagglekernel/DataObject.cpp:803-875 | no data: NO_DATA; no hash: NOT_VERIFIED; otherwise a previous verdict is kept, and a new one is OK exactly when the digest equals the hash |
| DataObject.VerifyIsFinal | src/hagglekernel/DataObject.cpp:812-820 | verifying again gives the same verdict |
| DataObject.HexByte | src/hagglekernel/DataObject.cpp:1078-1086 | a byte is two lower-case hex digits |
| DataObject.HexByteValue | src/hagglekernel/DataObject.cpp:1083-1085 | the two digits read back as the byte |
| DataObject.Hex | src/hagglekernel/DataObject.cpp:1078-1086 | the id string has two hex digits per id byte |
| DataObject.Unhex | src/hagglekernel/DataObject.cpp:1078-1086 | reading an id string gives half as many bytes |
| DataObject.UnhexHex | src/hagglekernel/DataObject.cpp:1078-1086 | the id string determines the id: reading it back gives the id |
| DataObject.CalcIdStr | src/hagglekernel/DataObject.cpp:1078-1086 | the loop builds exactly the hex string of the id |
| DataObject.SameObjectIffSameId | src/hagglekernel/DataObject.cpp:1093-1096 | two data objects are equal exactly when their ids are |
| DataObject.TrimAsWritten | src/hagglekernel/DataObject.cpp:601-604 | as written: when it succeeds, the kept header ends with '>' |
| DataObject.TrimHeader | src/hagglekernel/DataObject.cpp:601-604 | the header is cut just after its last '>', or to nothing when there is none |
| DataObject.TrimReadsBeforeStart | src/hagglekernel/DataObject.cpp:601-604 | the loop as written reads before the buffer exactly when the header has no '>', and otherwise agrees with TrimHeader |
| DataObject.TrimWithoutCloseAngle | src/hagglekernel/DataObject.cpp:601-604 | the header "abc" makes the loop as written read header[-1]; the corrected trim gives length 0 |
| DataObject.NumberedInjective | src/hagglekernel/DataObject.cpp:264-299 | different counters give different numbered file paths |
| DataObject.NumberedUpTo | src/hagglekernel/DataObject.cpp:264-299 | holds every numbered path tried before counter i |
| DataObject.NotYetNumbered | src/hagglekernel/DataObject.cpp:264-299 | the path for counter i is none of those tried before it |
| DataObject.ForeignNumbered | src/hagglekernel/DataObject.cpp:264-299 | a numbered path is not among the paths tried for a smaller counter |
| DataObject.PutCount | src/hagglekernel/DataObject.cpp:409-539 | the bytes reported as consumed cover the header bytes and the payload bytes taken, and no others; at the call site (PutData) the count is exactly the prefix of the buffer appended to the received stream |
| DataObject.PutCountLosesHeader | src/hagglekernel/DataObject.cpp:509-531 | as written, the count reported once header bytes were taken is smaller than the bytes consumed |
| DataObject.DataObject.State | src/hagglekernel/DataObject.cpp:99-119 | the object's fields as one value |
| DataObject.DataObject.constructor | src/hagglekernel/DataObject.cpp:99-119 | a new object is persistent, building, with no attributes, data or metadata |
| DataObject.DataObject.AddAttribute | src/hagglekernel/DataObject.cpp:736-746 | a duplicate is refused with nothing changed; otherwise the attribute is appended and the id recomputed |
| DataObject.DataObject.RemoveAttribute | src/hagglekernel/DataObject.cpp:755-763 | removes every equal attribute; returns how many, positive exactly when one was present; the id is recomputed only then |
| DataObject.DataObject.RemoveAttributeNamed | src/hagglekernel/DataObject.cpp:765-780 | value "*" removes every attribute with the name, otherwise only the matching one; returns how many were removed |
| DataObject.DataObject.SetDataLen | src/hagglekernel/DataObject.cpp:353-359 | the fields become WithDataLen of the old ones |
| DataObject.DataObject.VerifyData | src/hagglekernel/DataObject.cpp:803-875 | the returned and stored verdict are those of Verify |
| DataObject.DataObject.ParseMetadata | src/hagglekernel/DataObject.cpp:877-1021 | -1 and nothing changed without metadata; otherwise the fields become Parsed of the old ones and the id is recomputed |
| DataObject.DataObject.ToMetadata | src/hagglekernel/DataObject.cpp:1115-1209 | metadata exactly when the object has it, carrying the encoded persistent flag and attributes |
| DataObject.DataObject.CreateFilePath | src/hagglekernel/DataObject.cpp:264-299 | the chosen path does not exist yet; it is the plain path when that is free, and otherwise the first numbered path that is free |
| DataObject.DataObject.TakeHeader | src/hagglekernel/DataObject.cpp:409-455 | takes bytes up to and including the first "</haggle>" end tag, or all bytes when it does not appear |
| DataObject.DataObject.PutData | src/hagglekernel/DataObject.cpp:361-539 | refuses without a size; accepts only while building; consumed bytes extend the received stream; header bytes go to the header until the end tag, then payload bytes to the file; the count returned is the corrected PutCount |
| DataObject.DataObject.PutWhileBuilding | src/hagglekernel/DataObject.cpp:383-539 | the bytes taken extend the received stream, and the file when the metadata was already complete; while the metadata is pending every byte went to the header and METADATA_PENDING is reported; otherwise the remaining count is the payload bytes still missing; the count returned is the corrected PutCount |
| DataObject.DataObject.PutPayload | src/hagglekernel/DataObject.cpp:457-539 | opens the payload file when it is not open yet, then writes payload bytes from the given offset; they extend both the received stream and the file, and the remaining count is the payload bytes still missing; the count returned is the corrected PutCount |
| DataObject.DataObject.CollectHeader | src/hagglekernel/DataObject.cpp:409-455 | header bytes taken are also the bytes received; an incomplete header holds no end tag, a complete one holds it for the first time at its end |
| DataObject.DataObject.TakeAndParseHeader | src/hagglekernel/DataObject.cpp:381-455 | collects header bytes, and once the end tag is seen parses them into the object |
| DataObject.DataObject.OpenPayload | src/hagglekernel/DataObject.cpp:457-494 | 0 exactly when there is no payload; 1 with an open new file, expecting dataLen bytes; -1 stops building |
| DataObject.DataObject.WritePayload | src/hagglekernel/DataObject.cpp:497-537 | writes at most the bytes still expected; when none remain the file holds dataLen bytes and the stream is header then file |
| DataObject.DataObject.GetRetriever | src/hagglekernel/DataObject.cpp:567-622 | no retriever when payload data is expected but the file is missing; a dynamic length becomes the file's size; the header is cut by the corrected TrimHeader; the retriever starts with nothing sent |
| DataObject.DataObject.FreeBuild | src/hagglekernel/DataObject.cpp:84-97 | building state, header buffer and file are released |
| DataObject.Retriever.constructor | src/hagglekernel/DataObject.cpp:567-622 | a retriever starts at the beginning of the header, with the file open exactly when there is one |
| DataObject.Retriever.SentIsPrefix | src/hagglekernel/DataObject.cpp:640-721 | what has been sent is always a prefix of header followed by payload |
| DataObject.Retriever.Retrieve | src/hagglekernel/DataObject.cpp:640-721 | returns at most len bytes, appended to what was sent; -1 only on a read error; 0 only when the header is done and there is no payload to send |
| DataObject.Retriever.ServeHeader | src/hagglekernel/DataObject.cpp:645-672 | serves the next min(len, left) header bytes |
| DataObject.Retriever.ReadPayload | src/hagglekernel/DataObject.cpp:674-721 | serves at most the bytes wanted from the payload; 0 closes the file |
| Event.WithDataObject | src/hagglekernel/Event.cpp:60-107 | unknown type is refused; a data object is refused for a public type that does not carry one; otherwise the event carries the payload |
| Event.WithInterface | src/hagglekernel/Event.cpp:109-147 | the same rule for interface events |
| Event.WithNode | src/hagglekernel/Event.cpp:149-183 | the same rule for node events |
| Event.WithPolicy | src/hagglekernel/Event.cpp:185-215 | the same rule for policy events |
| Event.WithDataObjectAndNode | src/hagglekernel/Event.cpp:217-261 | refused exactly for a public type not taking a data object and node; DATAOBJECT_SEND puts the node in the target list |
| Event.WithNodeAndList | src/hagglekernel/Event.cpp:296-327 | refused exactly for a node with a non-empty list and a public type not taking them |
| Event.WithDataObjectAndList | src/hagglekernel/Event.cpp:329-359 | refused exactly for a data object with a non-empty list and a public type not taking them |
| Event.WithDataObjectNodeAndList | src/hagglekernel/Event.cpp:361-392 | refused exactly for a data object with a non-empty list and a public type not taking them; carries all three |
| Event.WithDataObjectListAsWritten | src/hagglekernel/Event.cpp:394-424 | as written, only an unknown type is refused |
| Event.WithDataObjectList | src/hagglekernel/Event.cpp:394-424 | refused exactly for a non-empty list and a public type not taking a data-object list |
| Event.WithData | src/hagglekernel/Event.cpp:426-597 | unknown type is refused; an accepted event carries the opaque data |
| Event.WithCallback | src/hagglekernel/Event.cpp:599-709 | refused exactly when the callback is missing; otherwise a callback event carrying its payload |
| Event.PrivateTypesAcceptAnyPayload | src/hagglekernel/Event.cpp:79-100 | every typed constructor accepts every payload for a private type |
| Event.OpaqueDataRefusedForTypedPayloads | src/hagglekernel/Event.cpp:426-597 | opaque data is refused for a public type exactly when some typed constructor accepts a payload for it |
| Event.DeletedEventHoldsList | src/hagglekernel/Event.cpp:85-93 | a DATAOBJECT_DELETED event from one data object is accepted and is the same event as one from a one-element list |
| Event.SendEventHoldsList | src/hagglekernel/Event.cpp:242-250 | a DATAOBJECT_SEND event from a data object and a node is accepted and is the same event as one from a one-node list |
| Event.DataObjectListCheckMissed | src/hagglekernel/Event.cpp:394-424 | NODE_UPDATED with a one-element list is accepted as written and refused by the intended check |
| Event.Split | src/hagglekernel/Event.cpp:715-791 | splitting on tabs always gives at least one field |
| Event.SplitJoin | src/hagglekernel/Event.cpp:775-787 | splitting the tab-joined fields gives the fields back |
| Event.TypeText | src/hagglekernel/Event.cpp:768 | the type's number as decimal text |
| Event.DescriptionFields | src/hagglekernel/Event.cpp:715-791 | seven fields: the type number, the data object as id-number or "-", the node id or "-", the interface or "-", "+"/"-" for policy and data, and the type name |
| Event.DescriptionSplits | src/hagglekernel/Event.cpp:715-791 | when no field contains a tab, splitting the description gives back exactly its fields |
| Event.FirstFree | src/hagglekernel/Event.cpp:801-803 | the first free private slot, or none exactly when every slot is taken |
| Event.Register | src/hagglekernel/Event.cpp:793-823 | -1 with the registry unchanged exactly when the type limit is reached, no slot is free or allocation fails; otherwise the first free slot gets the registration and its private type number is returned |
| Event.Unregister | src/hagglekernel/Event.cpp:825-845 | -1 with nothing changed for a type that is not a registered private type; otherwise its slot is freed and the new count returned |
| Event.RegistryStaysConsistent | src/hagglekernel/Event.cpp:793-845 | registering and unregistering keep the count equal to the number of occupied slots |
| Event.RegisterThenUnregister | src/hagglekernel/Event.cpp:813-840 | unregistering the type just registered restores the registry exactly |
| Event.Registry.constructor | src/hagglekernel/Event.cpp:24-58 | every private slot starts free |
| Event.Registry.RegisterType | src/hagglekernel/Event.cpp:793-823 | the registry becomes Register of the old one |
| Event.Registry.UnregisterType | src/hagglekernel/Event.cpp:825-845 | the registry becomes Unregister of the old one |
| NodeManager.Lacking | src/hagglekernel/NodeManager.cpp:346-366 | every neighbour whose bloomfilter lacks the description is listed |
| NodeManager.LackingMembers | src/hagglekernel/NodeManager.cpp:178-197 | a node is listed exactly when it is a neighbour lacking the description |
| NodeManager.SendsTo | src/hagglekernel/NodeManager.cpp:178-197 | one send action per listed neighbour, in order |
| NodeManager.Attempts | src/hagglekernel/NodeManager.cpp:193-194 | one pending exchange per listed neighbour, in order |
| NodeManager.FindEntry | src/hagglekernel/NodeManager.cpp:204-210 | the position of the first matching exchange entry, or the end |
| NodeManager.EraseFirstEntry | src/hagglekernel/NodeManager.cpp:199-234 | erasing removes exactly the first matching entry |
| NodeManager.Newest | src/hagglekernel/NodeManager.cpp:437-474 | the first description with the latest create time |
| NodeManager.Deleted | src/hagglekernel/NodeManager.cpp:437-474 | the indexes of the descriptions to delete, one fewer than there are |
| NodeManager.DeletedAllButNewest | src/hagglekernel/NodeManager.cpp:437-474 | every description except the newest is deleted, each once |
| NodeManager.DeleteActions | src/hagglekernel/NodeManager.cpp:452-474 | one delete action per deleted description |
| NodeManager.LatestReceive | src/hagglekernel/NodeManager.cpp:428-451 | the latest receive time among the descriptions |
| NodeManager.ReceiveAsWritten | src/hagglekernel/NodeManager.cpp:449-451 | as written: the receive time of some description |
| NodeManager.ReceiveAsWrittenMissesLatest | src/hagglekernel/NodeManager.cpp:449-489 | with receive times 5, 10, 7 and create times 1, 0, 2, the code as written keeps 7 instead of 10 |
| NodeManager.AcceptedIsLatestReceived | src/hagglekernel/NodeManager.cpp:481-489 | the kept description is the newest and carries the latest receive time |
| NodeManager.NodeManager.constructor | src/hagglekernel/NodeManager.cpp:37-60 | a new manager has no pending exchanges, nodes or actions |
| NodeManager.NodeManager.SendNodeDescription | src/hagglekernel/NodeManager.cpp:178-197 | nothing is sent to a neighbour that already has this node's description; otherwise a send and a pending exchange are added |
| NodeManager.NodeManager.OnSendNodeDescription | src/hagglekernel/NodeManager.cpp:346-366 | exchanges and sends are added for exactly the lacking neighbours |
| NodeManager.NodeManager.SendEach | src/hagglekernel/NodeManager.cpp:360-365 | for each neighbor whose bloomfilter lacks this node's description, in list order, one exchange attempt is recorded and the description is sent; nothing for the others |
| NodeManager.NodeManager.OnSendResult | src/hagglekernel/NodeManager.cpp:199-234 | without a matching pending exchange nothing changes; otherwise the first match is removed and the node is marked as exchanged on success and not exchanged on failure |
| NodeManager.NodeManager.OnNeighborInterfaceDown | src/hagglekernel/NodeManager.cpp:297-319 | the interface is dropped from the node; a node left without interfaces is removed, stored and reported as contact end |
| NodeManager.NodeManager.OnReceiveNodeDescription | src/hagglekernel/NodeManager.cpp:368-413 | this node's own description is deleted; another node's triggers a filter query |
| NodeManager.NodeManager.OnRetrieveNodeDescription | src/hagglekernel/NodeManager.cpp:419-536 | every description but the newest is deleted; the newest is taken exactly when it has the latest receive time (the corrected LatestReceive), and then the node is updated |
| NodeManager.NodeManager.SelectNewest | src/hagglekernel/NodeManager.cpp:437-474 | the loop finds Newest, the corrected LatestReceive and the delete actions |
| SQLTables.EmptyIsValid | src/hagglekernel/SQLDataStore.cpp:154-286 | the freshly created tables satisfy every invariant the triggers maintain |
| SQLTables.FindAttribute | src/hagglekernel/SQLDataStore.cpp:1539-1574 | an attribute row with that name and value, or none exactly when none exists |
| SQLTables.AttributeById | src/hagglekernel/SQLDataStore.cpp:949-992 | the attribute row with that rowid, or none exactly when none exists |
| SQLTables.FindDataObject | src/hagglekernel/SQLDataStore.cpp:1496-1537 | the data-object row with that id, or none exactly when none exists |
| SQLTables.FindNode | src/hagglekernel/SQLDataStore.cpp:1620-1708 | the node row with that id, or none exactly when none exists |
| SQLTables.FindFilter | src/hagglekernel/SQLDataStore.cpp:197 | the filter row for that event, or none exactly when none exists |
| SQLTables.InsertAttributeUnique | src/hagglekernel/SQLDataStore.cpp:189 | inserting an attribute keeps name and value unique and returns the row that holds them |
| SQLTables.AddLinkKeepsValid | src/hagglekernel/SQLDataStore.cpp:248-268 | a link insert with its trigger's count update keeps the invariant |
| SQLTables.WithoutOwner | src/hagglekernel/SQLDataStore.cpp:246 | exactly the links of other owners remain |
| SQLTables.WithoutDataObjectRow | src/hagglekernel/SQLDataStore.cpp:584-589 | exactly the other data-object rows remain |
| SQLTables.WithoutNodeRow | src/hagglekernel/SQLDataStore.cpp:689-694 | exactly the other node rows remain |
| SQLTables.WithoutFilterRow | src/hagglekernel/SQLDataStore.cpp:766-770 | exactly the other filter rows remain |
| SQLTables.WithoutInterfacesOf | src/hagglekernel/SQLDataStore.cpp:264 | exactly the interfaces of other nodes remain |
| SQLTables.DeleteDataObjectKeepsValid | src/hagglekernel/SQLDataStore.cpp:246-250 | deleting a data object and its links keeps the invariant |
| SQLTables.DeleteNodeKeepsValid | src/hagglekernel/SQLDataStore.cpp:264-268 | deleting a node with its links and interfaces keeps the invariant |
| SQLTables.DeleteFilterKeepsValid | src/hagglekernel/SQLDataStore.cpp:282-286 | deleting a filter and its links keeps the invariant |
| SQLTables.NewDataObjectKeepsValid | src/hagglekernel/SQLDataStore.cpp:154 | adding a data-object row with a new id keeps the invariant |
| SQLTables.NewNodeKeepsValid | src/hagglekernel/SQLDataStore.cpp:173 | adding a node row with a new id keeps the invariant |
| SQLTables.NewFilterKeepsValid | src/hagglekernel/SQLDataStore.cpp:197 | adding a filter row for a new event keeps the invariant |
| SQLTables.LinkAllKeepsValid | src/hagglekernel/SQLDataStore.cpp:2380-2406 | linking all attributes keeps the invariant, and afterwards each attribute is linked to the owner |
| SQLTables.SimilarCases | src/hagglekernel/SQLDataStore.cpp:352 | a wildcard filter value matches any value of that name; any other value matches only itself |
| SQLTables.MatchStats | src/hagglekernel/SQLDataStore.cpp:407-432 | defines the view's count of matching attributes, their weight sum and their minimum weight, on which RatioThreshold and the match predicates rest; its own contract states only that no matching attribute means no matching weight |
| SQLTables.RatioThreshold | src/hagglekernel/SQLDataStore.cpp:443 | the integer percentage test equals the cross-multiplied test |
| SQLTables.FilterRatioPositive | src/hagglekernel/SQLDataStore.cpp:371 | the integer ratio is positive exactly when 100 times the count reaches the number of filter attributes |
| SQLTables.FilterMatchesIsRatio | src/hagglekernel/SQLDataStore.cpp:361-371 | a filter matches a data object exactly when the view's ratio is positive |
| SQLTables.StoredDataLen | src/hagglekernel/SQLDataStore.cpp:571 | a dynamic length is stored as -1 and only then |
| SQLTables.ReadDataLen | src/hagglekernel/SQLDataStore.cpp:816-821 | a stored -1 reads as a dynamic length and only then |
| SQLTables.DataLenRoundTrip | src/hagglekernel/SQLDataStore.cpp:571 | reading a stored length back gives the dynamic flag and the length |
| SQLTables.InsertedDataLen64 | src/hagglekernel/SQLDataStore.cpp:569-571 | as written: the value printed with %lu is an unsigned 64-bit number |
| SQLTables.ColumnInt64 | src/hagglekernel/SQLDataStore.cpp:816 | as written: reading the column as a signed 64-bit integer |
| SQLTables.DynamicLenLost64 | src/hagglekernel/SQLDataStore.cpp:816-821 | as written, a dynamic length does not read back as dynamic |
| SQLTables.UpdateRepository | src/hagglekernel/SQLDataStore.cpp:2930-2942 | for a row id above 0, the rows with that row id and authority take the new key and value; for row id 0, the rows with that authority and key take the new value; every other row is unchanged |
| SQLDataStore.ClearedFilterFacts | src/hagglekernel/SQLDataStore.cpp:1886-1898 | deleting the old filter for an event keeps the invariant and leaves no filter for it |
| SQLDataStore.FreshFilterFacts | src/hagglekernel/SQLDataStore.cpp:1900-1935 | a new filter row with its links keeps the invariant and the other filters |
| SQLDataStore.InsertedFilterFacts | src/hagglekernel/SQLDataStore.cpp:1861-1941 | after insertion there is exactly one filter for the event, linked to each of its attributes, and the invariant holds |
| SQLDataStore.InsertInterface | src/hagglekernel/SQLDataStore.cpp:206 | the interface is present afterwards and no interface is lost |
| SQLDataStore.InsertInterfacesFacts | src/hagglekernel/SQLDataStore.cpp:2100-2115 | every interface of the node is present and the invariant holds |
| SQLDataStore.ClearedNodeFacts | src/hagglekernel/SQLDataStore.cpp:2037-2051 | deleting the old row for the node id keeps the invariant and leaves no row with that id |
| SQLDataStore.FreshNodeFacts | src/hagglekernel/SQLDataStore.cpp:2053-2095 | a new node row with its links keeps the invariant and the other nodes |
| SQLDataStore.InsertedNodeFacts | src/hagglekernel/SQLDataStore.cpp:1979-2151 | after insertion the node has one row, linked to each of its attributes, its interfaces are present, and the invariant holds |
| SQLDataStore.CreateDataObject | src/hagglekernel/SQLDataStore.cpp:784-827 | the loaded object has the row's id, does not own its file, and is dynamic exactly when the stored length is -1 |
| SQLDataStore.StoredDataObjectFacts | src/hagglekernel/SQLDataStore.cpp:2365-2406 | storing a data object keeps the invariant and links it to each attribute |
| SQLDataStore.InsertedDataObjectFacts | src/hagglekernel/SQLDataStore.cpp:2305-2446 | an already stored id leaves the tables unchanged; a new persistent object gets a row; a new non-persistent one leaves no row and no links; no stored object is lost; the invariant holds |
| SQLDataStore.FilterEvents | src/hagglekernel/SQLDataStore.cpp:1710-1766 | at most one event per listed filter row; over a view of the stored filters, at most one per stored filter (FilterEventsSpec) |
| SQLDataStore.FilterEventsSpec | src/hagglekernel/SQLDataStore.cpp:1710-1766 | over a view listing the stored filters: every event carries the data object alone and names a stored filter it matches, every stored filter it matches raises its event, and there are no more events than stored filters |
| SQLDataStore.EventMatches | src/hagglekernel/SQLDataStore.cpp:1770-1831 | no more ids than allowed or available |
| SQLDataStore.EventMatchesSpec | src/hagglekernel/SQLDataStore.cpp:1770-1831 | over a view listing the stored data objects: every id is that of a stored data object matching the event type's filter, and unless the limit was reached every such stored data object is collected |
| SQLDataStore.Step2 | src/hagglekernel/SQLDataStore.cpp:2626-2684 | no more results than the view gives or the limit allows |
| SQLDataStore.Step2Spec | src/hagglekernel/SQLDataStore.cpp:2645-2669 | over a view listing the stored data objects: every result is a stored data object matching the node and in neither bloomfilter, and unless the limit was reached every such stored data object is a result |
| SQLDataStore.NodeStep2 | src/hagglekernel/SQLDataStore.cpp:2626-2684 | a node query gives no more than the limit |
| SQLDataStore.ForNodes | src/hagglekernel/SQLDataStore.cpp:2731-2797 | the query over several nodes returns no more than the primary node's limit |
| SQLDataStore.ForNodesCountAsWritten | src/hagglekernel/SQLDataStore.cpp:2768-2794 | as written: the count returned is the last node's count |
| SQLDataStore.ForNodesCount | src/hagglekernel/SQLDataStore.cpp:2774 | the total is zero exactly when every node matched nothing, and covers each node's count |
| SQLDataStore.ForNodesDropsEarlierMatches | src/hagglekernel/SQLDataStore.cpp:2768-2794 | with counts 2 then 0 the code as written reports 0 matches; the total is 2 |
| SQLDataStore.Targets | src/hagglekernel/SQLDataStore.cpp:2799-2900 | no more targets than the view gives or the limit allows |
| SQLDataStore.TargetsSpec | src/hagglekernel/SQLDataStore.cpp:2799-2900 | over a view listing the stored nodes: every target is a stored peer or gateway matching the data object, and without a LIMIT every such stored node is a target |
| SQLDataStore.RepositoryUpsert | src/hagglekernel/SQLDataStore.cpp:2906-2966 | afterwards an entry for the authority and key exists, every such entry has the new value, and every other entry is kept |
| SQLDataStore.DataStore.constructor | src/hagglekernel/SQLDataStore.cpp:1262-1376 | a new store has empty tables and no events |
| SQLDataStore.DataStore.LinkAttributes | src/hagglekernel/SQLDataStore.cpp:1905-1930 | the tables become LinkAll of the old ones |
| SQLDataStore.DataStore.CollectEventMatches | src/hagglekernel/SQLDataStore.cpp:1790-1815 | the loop collects exactly EventMatches |
| SQLDataStore.DataStore.EvaluateDataObjects | src/hagglekernel/SQLDataStore.cpp:1770-1831 | posts the matching data objects, up to the maximum evaluated |
| SQLDataStore.DataStore.EvaluateFilters | src/hagglekernel/SQLDataStore.cpp:1710-1766 | posts exactly FilterEvents and returns their number |
| SQLDataStore.DataStore.InsertFilter | src/hagglekernel/SQLDataStore.cpp:1861-1941 | the tables become InsertedFilter of the old ones and the filter's rowid is returned |
| SQLDataStore.DataStore.AddFilter | src/hagglekernel/SQLDataStore.cpp:1861-1941 | with no filter for the event type, the tables become InsertedFilter of the old ones, the new rowid is returned, and the callback and match events are posted |
| SQLDataStore.DataStore.InsertNodeInterfaces | src/hagglekernel/SQLDataStore.cpp:2097-2140 | the tables become InsertInterfaces of the old ones |
| SQLDataStore.DataStore.InsertNode | src/hagglekernel/SQLDataStore.cpp:1979-2151 | -1 with nothing changed exactly for a node without description or of undefined type; otherwise the node is inserted |
| SQLDataStore.DataStore.DeleteDataObjectById | src/hagglekernel/SQLDataStore.cpp:2153-2217 | -1 with nothing changed exactly when reporting was asked for a missing object; otherwise exactly the rows with that id are gone |
| SQLDataStore.DataStore.DeleteDataObjectRef | src/hagglekernel/SQLDataStore.cpp:2219-2229 | exactly the rows with that id are gone, and the deletion is reported when asked |
| SQLDataStore.DataStore.InsertDataObject | src/hagglekernel/SQLDataStore.cpp:2305-2446 | reports a duplicate exactly when the id is already stored, and then posts only the callback event; a new object is stored (a dynamic length as the corrected -1 of StoredDataLen) and an event is posted for each filter it matches |
| SQLDataStore.DataStore.DataObjectQueryStep2 | src/hagglekernel/SQLDataStore.cpp:2626-2684 | the loop finds exactly NodeStep2 |
| SQLDataStore.DataStore.DataObjectQuery | src/hagglekernel/SQLDataStore.cpp:2686-2727 | posts the step-2 results for the node and returns their number |
| SQLDataStore.DataStore.CollectForNodes | src/hagglekernel/SQLDataStore.cpp:2755-2780 | the loop finds exactly ForNodes |
| SQLDataStore.DataStore.DataObjectForNodesQuery | src/hagglekernel/SQLDataStore.cpp:2731-2797 | posts the results of all nodes when any node matched, and returns the corrected total ForNodesCount |
| SQLDataStore.DataStore.CollectTargets | src/hagglekernel/SQLDataStore.cpp:2840-2870 | the loop finds exactly Targets |
| SQLDataStore.DataStore.NodeQuery | src/hagglekernel/SQLDataStore.cpp:2799-2900 | posts the matching target nodes of the stored data object when there are any, and returns their number, at most maxResp when that is set |
| SQLDataStore.DataStore.InsertRepository | src/hagglekernel/SQLDataStore.cpp:2906-2966 | the tables become InsertedRepository of the old ones and 1 is returned |

## Left out

- Header files are not part of this model: Heap.h, ProtocolRFCOMM.h, Event.h, list.h and SQLDataStore.h. Their constants are parameters:
  - the heap's initial size and growth step (`Heap.Heap.constructor`, `Heap.HeapItem.constructor`);
  - RFCOMM_DATA_BUFFER_SIZE;
  - the number of private event slots;
  - ATTR_WEIGHT_NO_MATCH (`noMatch`).
- Heap.Heap.constructor: declared in Heap.h, so it has no row. `IsFull` is taken as the size reaching `maxSize`.
- list_add in list.h is assumed to append at the tail of the metadata child and parameter lists.
- The daemon, its event loop and the IPC and JNI native calls are left out. Native frees are counted in `nativeFrees`.
- Sockets, Bluetooth and the WIDCOMM stack are left out: connectToPeer, sendData, waitForEvent, closeConnection, OnEventReceived and the server's accept path. The message queue is a sequence.
- Rfcomm.Client: the size_t wrap-around of db_head and db_tail is not modelled. The positions are unbounded and the buffer is indexed modulo its size.
- Mutexes and concurrency are left out. Every operation is atomic.
- SQLite itself is not modelled:
  - the SQL text and the sqlite3_* error paths;
  - STRFTIME timestamps;
  - the per-table AUTOINCREMENT, which is one global row-id counter here;
  - the row order of views and `ORDER BY`, which is a parameter; the operations require (ListsRows) that it lists every stored row of the table once.
- Store operations not modelled: _readRepository, _deleteRepository, _ageDataObjects, _retrieveNode, _doFilterQuery, dump and print. _deleteNode is modelled only as the table update that _insertNode performs.
- SQLDataStore.CreateDataObject: covers only the id, the data length and file ownership. The metadata re-parse is not modelled.
- SHA1, base64, the XML parser, fopen/fread/fwrite and the file system are parameters:
  - a digest;
  - a parse function;
  - byte sequences;
  - the set of existing paths.
- DataObject.Parsed: the signature, create time and thumbnail parts of the metadata parse are not modelled. Neither is the file branch (DataObject.cpp:928-984): the FILENAME element setting the file name, and a FILEPATH element whose local file's size, read with fopen and ftell, replaces the DATALEN value and marks the data not verified, after which the element is removed. The `isNodeDesc` flag set for a node-description attribute (DataObject.cpp:1012-1013) is not modelled either. So for a locally generated object the model's data length is the DATALEN text, where the source's is the file's size.
- DataObject.DataObject.ParseMetadata: inherits the gaps of Parsed.
- The bloomfilter is a set of data-object ids. False positives are not modelled.
- Timeouts, event delays and Timeval are integers, or are not modelled.
- The order of attribute maps is the order of a sequence.
- Event debug-command constructors (Event.cpp:263-294 and 691-709) are not modelled, because debug commands are not part of this model.
- ForwarderRank: newNeighbor, endNeighbor and generateTargetsFor are empty in the source and are not modelled. The rank map is filled by code that is commented out, so it is a parameter.
- Decimal: ULONG_MAX is that of an LP64 platform (a 64-bit `unsigned long`), and white space is that of the C locale.
- Rfcomm.Connection.constructor: the remote address is fixed when the connection is made. The source's getRemoteAddr asks the stack whether the link is still up (ProtocolRFCOMMWIDCOMM.cpp:103-106), so there a dropped link has no address. Link loss is not modelled.
- Rfcomm.ConnectionList.AddConnection: as addresses never drop, a new connection to the address of a listed connection whose link dropped is refused; the source accepts it.
- Rfcomm.ConnectionList.GetConnection: for the same reason it still finds a listed connection whose link dropped; so do HasConnection and HasConnectionAddr.
- Metadata.Detach: the list holding the child is taken to be that of the node the child records as its parent, which is where metadata_add links it. A child linked into two lists by two metadata_add calls, which corrupts the source's lists, is not modelled.
- Metadata.Get: it uses the corrected InitFilter of the finding at metadata.c:29-37. As written, a NULL or empty name after a named get leaves the freed name as the filter, which is undefined behaviour; InitFilterAsWritten and StaleFilterSkipsChildren state it.
- DataObject.Encoded: builds the header from the fields alone. toMetadata updates the metadata the object already carries (DataObject.cpp:1120-1170), so a DATALEN or file hash written or parsed earlier stays after the length drops to 0, the file name is cleared or the hash is dropped; only the attributes are rewritten (DataObject.cpp:1192-1206). That stale content is not modelled.
- DataObject.DataObject.ToMetadata: inherits the gap of Encoded: the metadata is rebuilt, not updated in place.
- DataObject.DataObject.PutData: returns the corrected count PutCount (header plus payload bytes) of the finding at DataObject.cpp:509-531. As written, putData returns only the payload bytes once payload is written; PutCountAsWritten and PutCountLosesHeader state it.
- DataObject.DataObject.PutWhileBuilding: the same corrected count, through PutPayload.
- DataObject.DataObject.PutPayload: computes the corrected PutCount, not the as-written payload-only count.
- DataObject.DataObject.GetRetriever: cuts the header with the corrected TrimHeader. On a header without '>' the source reads header[-1], which is undefined behaviour; TrimAsWritten, TrimReadsBeforeStart and TrimWithoutCloseAngle state it.
- NodeManager.NodeManager.SelectNewest: computes the corrected LatestReceive of the finding at NodeManager.cpp:449-451. As written, the source compares with the receive time of the description it currently keeps (ReceiveAsWritten).
- NodeManager.NodeManager.OnRetrieveNodeDescription: accepts by the corrected LatestReceive. For descriptions (create 1, receive 5), (create 0, receive 10), (create 2, receive 7) the source takes the newest and the model refuses it (ReceiveAsWrittenMissesLatest).
- SQLDataStore.DataStore.InsertDataObject: stores a dynamic length as the corrected -1 of StoredDataLen. As written, %lu stores ULONG_MAX, which reads back as not dynamic (InsertedDataLen64, DynamicLenLost64).
- SQLDataStore.DataStore.DataObjectForNodesQuery: posts when any node matched and returns the total (ForNodesCount). As written, it posts and returns by the last node's count only (ForNodesCountAsWritten, ForNodesDropsEarlierMatches).
- DataObject.PutCountAsWritten: it has no contract of its own. It is the as-written half of a finding, and PutCountLosesHeader states it.
- The session-layer behaviour described for the library API is not followed. The model follows the kernel code.

## Findings

| source | as written | input that shows it | evidently intended | confidence | as-written member | corrected member |
|---|---|---|---|---|---|---|
| src/libhaggle/metadata.c:29-37 | iterator init frees the old name filter but does not reset it when the new name is NULL or empty | children "a","b": metadata_get(m,"a") then metadata_get(m,NULL) and metadata_get_next skips "b" | a NULL or empty name means no filter | not executed | Metadata.InitFilterAsWritten, Metadata.StaleFilterSkipsChildren | Metadata.InitFilter |
| src/hagglekernel/DataObject.cpp:601-604 | the trim loop tests header[header_len-1] before header_len | a header "abc" with no '>' reads header[-1] | test the length first; no '>' gives length 0 | not executed | DataObject.TrimAsWritten, DataObject.TrimWithoutCloseAngle | DataObject.TrimHeader |
| src/hagglekernel/DataObject.cpp:509-531 | putLen is set to the payload length, overwriting the header bytes counted at line 414 | a buffer holding the end of the header and part of the payload | consumed bytes = header bytes + payload bytes | not executed | DataObject.PutCountAsWritten, DataObject.PutCountLosesHeader | DataObject.PutCount |
| src/hagglekernel/Event.cpp:394-424 | the data-object-list constructor checks dObjRef, which it never sets | NODE_UPDATED with a one-element list is accepted | check the list it is given | not executed | Event.WithDataObjectListAsWritten, Event.DataObjectListCheckMissed | Event.WithDataObjectList |
| src/hagglekernel/NodeManager.cpp:449-451 | the receive time is compared with the kept description, not with the running maximum | receive times 5, 10, 7 with create times 1, 0, 2 keep 7 | the latest receive time, 10 | not executed | NodeManager.ReceiveAsWritten, NodeManager.ReceiveAsWrittenMissesLatest | NodeManager.LatestReceive |
| src/hagglekernel/SQLDataStore.cpp:571 | a dynamic length of -1 is printed with %lu and read back with sqlite3_column_int64 | dynamic data length: stored as 2^64-1, read back as not -1 | -1 stored and read back as dynamic | not executed | SQLTables.InsertedDataLen64, SQLTables.DynamicLenLost64 | SQLTables.DataLenRoundTrip |
| src/hagglekernel/SQLDataStore.cpp:2768-2794 | the multi-node query returns and posts according to the last node's count only | two nodes matching 2 then 0 objects: returns 0 and posts nothing | use the total over all nodes | not executed | SQLDataStore.ForNodesCountAsWritten, SQLDataStore.ForNodesDropsEarlierMatches | SQLDataStore.ForNodesCount |
