# The ROS graph engine of rmw_cyclonedds_c, in Dafny

This project models the parts of rmw_cyclonedds_c that keep state, and proves what they are for.

- **The graph cache** (`CacheSpec.dfy`, `Effects.dfy`, `GraphCache.dfy`, `CacheRuns.dfy`): three bounded arrays fed by graph
  snapshots and by DDS built-in discovery (section 2.2.5 of DDS 1.4). `CacheSpec.Step` says how an event is worked off,
  `Effects` when there is room for it and what it changes in the contents;
  the class `GraphCache` does it with the program's loops (search, compaction, shifting, append) and is proved to
  compute `Step`. `CacheRuns` characterizes the contents by the history of events and proves that the order in
  which different participants' events arrive does not matter.
- **The local node table** (`SlotTable.dfy`, `NodeTable.dfy`, `LocalGraph.dfy`, `LocalSpec.dfy`): a compacting slot
  table with heap handles that hold back-indices into it. `LocalSpec.Perform` says what a call does to a context
  (table, own cache, last written sample); the classes do it in place. The slot storage, the handles and the
  publishing context are three classes here; in the program they are fields of one struct.
- **The snapshot protocol between two contexts** (`Convergence.dfy`), **ownership and the create/destroy pairs**
  (`Lifecycle.dfy`, `EndpointLaws.dfy`), **node handles over whole runs** (`HandleRuns.dfy`), and **the discovery
  callbacks** (`Samples.dfy`, `Discovery.dfy`).
- **The two spin locks** under every interleaving (`Locks.dfy`, `LockRuns.dfy`): threads that call, update and query.
  A query is a program that reads the cache memory one access at a time (`Readers.dfy`); the three queries of the
  program are written that way in `QueryPrograms.dfy`.
- **The queries** (`QuerySpec.dfy`, `GraphQueries.dfy`, `QueryLaws.dfy`) and **the name translations** (`Names.dfy`).
- **The wait algorithm** (`WaitSet.dfy`; section 2.2.2.1.6 of DDS 1.4).
- **The converter generator** (`Generator.dfy`, `ConverterSemantics.dfy`, `ConverterProofs.dfy`): message types, the
  emitted statements, an interpreter for them, and the proof that the emitted code preserves every value.

Everything outside the program is a parameter or a nondeterministic step: whether a write, take, attach,
detach or wait succeeds, which batches a take returns, which entities trigger, whether the topic validator accepts.
All limits are arbitrary positive numbers, in any relation to each other (`rmw_cyclonedds_c/CMakeLists.txt:48-56`).

## Where the code does less than one might expect

- "The last written sample is the local table" is not an invariant. `LocalSpec.WireMatchesExcept` gives the exact
  condition, `LocalSpec.WireCanRunAhead` an instance: a node can be announced to peers and then given up locally.
- Demangling a generated type name is exact only if no namespace component ends in `dds_`
  (`Names.TypeNamesRoundTrip`); `Names.MarkerInsideComponent` is an instance. A ROS package name cannot end in an
  underscore, so interface packages that follow the naming rules do not meet this.
- The endpoint callback skips samples that carry the own participant, not samples that carry an own endpoint GUID.
  `Discovery.OwnEntriesLostExactly` says when that makes a difference.
- `docs/graph-inbound.md:54-56` says that every accepted change signals the graph guard condition. Removals signal
  it even when the participant or endpoint was unknown; the model follows the code.

## Model

| member | source | states |
|---|---|---|
| CacheSpec.StepKeepsInv | rmw_cyclonedds_c/src/rmw_cyclonedds_c.c:255-488 | every discovery event, taken or refused, keeps all limits, unique participants and endpoint GUIDs, bounded names, and that every cached node's participant is cached |
| CacheSpec.SnapshotReplacesExactly | rmw_cyclonedds_c/src/rmw_cyclonedds_c.c:376-407 | an accepted snapshot gives its participant exactly the announced nodes in order, moves nobody else's nodes, changes the node count by the difference, and leaves the endpoints alone |
| CacheSpec.SnapshotRefusedExactly | rmw_cyclonedds_c/src/rmw_cyclonedds_c.c:361-375 | a snapshot within the static bounds is refused iff the other participants' nodes plus the new ones do not fit, or its participant is unknown and the participant array is full |
| CacheSpec.SnapshotIsIdempotent | rmw_cyclonedds_c/src/rmw_cyclonedds_c.c:334-411 | an accepted snapshot applied again is accepted and changes nothing |
| CacheSpec.UpsertedMembers | rmw_cyclonedds_c/src/rmw_cyclonedds_c.c:453-468 | the upsert keeps GUIDs unique; afterwards the entry is there, and otherwise exactly the entries with other GUIDs |
| CacheSpec.DropEndpointMembers | rmw_cyclonedds_c/src/rmw_cyclonedds_c.c:474-488 | removal by GUID removes exactly the entry with that GUID |
| Effects.TakenIffRoom | rmw_cyclonedds_c/src/rmw_cyclonedds_c.c:266-472 | each kind of event is taken iff its strings and lists are within the bounds and what it adds has room, spelled out in counts |
| Effects.EventHasEffect | rmw_cyclonedds_c/src/rmw_cyclonedds_c.c:266-488 | each event changes participants, nodes and endpoints exactly as described for it, read off the contents before and after |
| GraphCacheArrays.GraphCache.FindParticipant | rmw_cyclonedds_c/src/rmw_cyclonedds_c.c:255-264 | the loop returns the first index of the GUID, or the count |
| GraphCacheArrays.GraphCache.FindEndpoint | rmw_cyclonedds_c/src/rmw_cyclonedds_c.c:413-422 | the loop returns the first index of the GUID, or the count |
| GraphCacheArrays.GraphCache.AddParticipant | rmw_cyclonedds_c/src/rmw_cyclonedds_c.c:266-290 | OK iff the participant is known or there is room; then exactly it is added, otherwise nothing changes; the guard is triggered iff OK |
| GraphCacheArrays.GraphCache.RemoveParticipant | rmw_cyclonedds_c/src/rmw_cyclonedds_c.c:292-332 | shifting the participant out and compacting both arrays in place takes away the participant, its nodes and its endpoints, and nothing else; freed participant and endpoint memory is cleared |
| GraphCacheArrays.GraphCache.CheckBounds | rmw_cyclonedds_c/src/rmw_cyclonedds_c.c:338-355 | true iff the snapshot's node count, list lengths and names are within the static bounds |
| GraphCacheArrays.GraphCache.CountNodesOf | rmw_cyclonedds_c/src/rmw_cyclonedds_c.c:361-366 | the loop counts exactly the cached nodes of the participant |
| GraphCacheArrays.GraphCache.ReplaceNodes | rmw_cyclonedds_c/src/rmw_cyclonedds_c.c:381-407 | compaction followed by appending equals filter-then-concatenate, with every index in range |
| GraphCacheArrays.GraphCache.ApplySnapshot | rmw_cyclonedds_c/src/rmw_cyclonedds_c.c:334-411 | OK iff every node is within the bounds and nodes and participant have room; then the participant has exactly those nodes and nobody else's change, otherwise nothing changes; the guard is triggered iff OK |
| GraphCacheArrays.GraphCache.UpsertEndpoint | rmw_cyclonedds_c/src/rmw_cyclonedds_c.c:443-472 | fails iff a string does not fit, or no entry has the GUID and the array is full; then nothing changes, otherwise the GUID has exactly the new entry and every other entry stays |
| GraphCacheArrays.GraphCache.RemoveEndpointGuid | rmw_cyclonedds_c/src/rmw_cyclonedds_c.c:474-488 | the GUID has no entry afterwards and every other entry stays; the vacated place is cleared |
| GraphCacheArrays.Compact | rmw_cyclonedds_c/src/rmw_cyclonedds_c.c:306-314 | in-place compaction is the order-keeping filter and touches nothing past the count |
| GraphCacheArrays.ShiftDown | rmw_cyclonedds_c/src/rmw_cyclonedds_c.c:479-482 | the shifting loop removes exactly one element and keeps the order of the rest |
| CacheRuns.RunKeepsInv | rmw_cyclonedds_c/src/rmw_cyclonedds_c.c:255-488 | the cache invariant holds after every run of events |
| CacheRuns.NodesAreLastSnapshot | rmw_cyclonedds_c/src/rmw_cyclonedds_c.c:334-411 | after any run the cached nodes of a participant are, in order, its last accepted snapshot not followed by its loss, and none if there is no such snapshot |
| CacheRuns.EndpointsAreLastUpserts | rmw_cyclonedds_c/src/rmw_cyclonedds_c.c:443-488 | after any run an endpoint entry is cached iff it is the last accepted announcement of its GUID not followed by the removal of the GUID or of its participant |
| CacheRuns.ParticipantsAreAlive | rmw_cyclonedds_c/src/rmw_cyclonedds_c.c:266-304 | after any run a participant is cached iff an accepted sign of life of it was not followed by its loss |
| CacheRuns.LostParticipantIsHidden | rmw_cyclonedds_c/src/rmw_cyclonedds_c.c:292-332 | after a participant is lost nothing of it is visible until a new snapshot of it is accepted, whatever else arrives |
| CacheRuns.ViewAfterStep | rmw_cyclonedds_c/src/rmw_cyclonedds_c.c:281-488 | an accepted event changes what is known about its own participant as prescribed, and nothing about any other |
| CacheRuns.ViewIsLocal | rmw_cyclonedds_c/src/rmw_cyclonedds_c.c:281-488 | what is known about a participant after a run that refuses nothing depends only on that participant's own events |
| CacheRuns.SameViewsSameAnswers | rmw_cyclonedds_c/src/rmw_cyclonedds_c.c:424-441 | caches that know the same about every participant have the same visible endpoints and the same nodes |
| CacheRuns.DiscoveryIsConfluent | rmw_cyclonedds_c/src/rmw_cyclonedds_c.c:266-488 | two caches, possibly with different limits, that refuse nothing and see each participant's events in the same order end with the same visible endpoints, nodes and counts, however the participants are interleaved |
| Discovery.HandleSample | rmw_cyclonedds_c/src/rmw_cyclonedds_c.c:497-559 | for each kind of sample, valid or not, alive or not, own or foreign: exactly its effect on participants, nodes and endpoints, and every change is signalled; idle samples change nothing |
| Discovery.DataAvailable | rmw_cyclonedds_c/src/rmw_cyclonedds_c.c:490-566 | the take loop terminates and handles the consumed samples one by one in order, each with its effect, for any batch size; it stops only when everything pending is consumed or a take failed, and leaves no change unsignalled |
| Discovery.HandledConcat | rmw_cyclonedds_c/src/rmw_cyclonedds_c.c:496-508 | handling two batches is handling their concatenation |
| Discovery.HandledHasEffect | rmw_cyclonedds_c/src/rmw_cyclonedds_c.c:497-559 | handling a sample has the effect described for it |
| Samples.LostParticipantStaysHidden | rmw_cyclonedds_c/src/rmw_cyclonedds_c.c:529-531 | after a participant sample that is neither valid nor alive, no cached node and no visible endpoint belongs to that participant until a graph sample of it is taken |
| Samples.LastNodesRule | rmw_cyclonedds_c/src/rmw_cyclonedds_c.c:497-504 | the nodes of a graph sample that was taken are what is cached for its participant until the next one or the loss |
| Samples.LastAnnouncementRules | rmw_cyclonedds_c/src/rmw_cyclonedds_c.c:544-546 | an endpoint sample that was taken is the one entry under its GUID until the next one, its disposal or the loss of its participant |
| Samples.DisposedEndpointStaysGone | rmw_cyclonedds_c/src/rmw_cyclonedds_c.c:547-549 | a disposed endpoint has no entry until it is announced again |
| Discovery.OwnEntriesUntouched | rmw_cyclonedds_c/src/rmw_cyclonedds_c.c:501-547 | when samples carry the participant their GUID belongs to, no sequence of samples changes what the cache holds about the own participant |
| Discovery.OwnEntriesAfterSamples | rmw_cyclonedds_c/src/rmw_cyclonedds_c.c:501-547 | for any samples at all: own nodes stay, nothing becomes an own entry, and an own endpoint entry stays iff no other participant's sample carries its GUID |
| Discovery.OwnEntriesLostExactly | rmw_cyclonedds_c/src/rmw_cyclonedds_c.c:535-547 | what the cache holds about the own participant is unchanged iff no sample of another participant carries the GUID of an own cached endpoint |
| QuerySpec.AssociatedByOwner | rmw_cyclonedds_c/src/rmw_cyclonedds_c.c:424-441 | association depends only on the cached nodes of the endpoint's own participant |
| GraphQueries.EndpointIsAssociated | rmw_cyclonedds_c/src/rmw_cyclonedds_c.c:424-441 | the nested loops decide whether a cached node of the same participant lists the GUID in the right direction |
| GraphQueries.CountEndpoints | rmw_cyclonedds_c/src/rmw_cyclonedds_c.c:1524-1551 | refused iff the topic is null, invalid or longer than 254 characters; otherwise the count is the number of distinct visible endpoints of that DDS topic and direction |
| GraphQueries.GetNodeNames | rmw_cyclonedds_c/src/rmw_cyclonedds_c.c:1460-1480 | the output arrays hold the names and namespaces of the cached nodes, in cache order, with no slot left empty |
| GraphQueries.FindRepresentatives | rmw_cyclonedds_c/src/rmw_cyclonedds_c.c:1630-1654 | the first pass finds one representative per distinct reported topic, in order of first appearance |
| GraphQueries.CountTypes | rmw_cyclonedds_c/src/rmw_cyclonedds_c.c:1673-1706 | the first type pass, which seeks duplicates among earlier matching endpoints, returns the number of distinct types |
| GraphQueries.WriteTypes | rmw_cyclonedds_c/src/rmw_cyclonedds_c.c:1708-1741 | the second type pass, which seeks duplicates in the output, fills an array of exactly that size with the distinct types: no write out of bounds, no slot left empty |
| GraphQueries.GetTopicNamesAndTypes | rmw_cyclonedds_c/src/rmw_cyclonedds_c.c:1613-1750 | the whole query returns the listed topics and, for each, the listed types |
| GraphQueries.DedupIsSet | rmw_cyclonedds_c/src/rmw_cyclonedds_c.c:1643-1653 | removing duplicates leaves every element exactly once |
| GraphQueries.ListingIsExact | rmw_cyclonedds_c/src/rmw_cyclonedds_c.c:1613-1750 | listed topics and types are duplicate-free and are exactly the images of the visible endpoints |
| GraphQueries.ListedTopicsHaveTypes | rmw_cyclonedds_c/src/rmw_cyclonedds_c.c:1613-1750 | a topic is listed iff it has a listed type |
| QueryLaws.ListedIffCounted | rmw_cyclonedds_c/src/rmw_cyclonedds_c.c:1524-1578 | an absolute name is listed by the demangled query iff its publisher count plus subscriber count is positive |
| QueryLaws.CountsAddUp | rmw_cyclonedds_c/src/rmw_cyclonedds_c.c:1524-1654 | the counts of all listed names add up to the number of associated endpoints whose DDS topic starts with rt/, each counted once |
| QueryLaws.ListingsFollowVisible | rmw_cyclonedds_c/src/rmw_cyclonedds_c.c:1613-1750 | caches with the same visible endpoints list the same topics and types |
| QueryLaws.UndemangledListing | rmw_cyclonedds_c/src/rmw_cyclonedds_c.c:1563-1590 | without demangling, a name is listed iff it is not the graph topic and is the DDS topic of a visible endpoint, and its types are exactly the raw DDS type names of those endpoints |
| QueryLaws.DemangledListing | rmw_cyclonedds_c/src/rmw_cyclonedds_c.c:1563-1578 | with demangling, a name is listed iff it is absolute and, with rt in front, the DDS topic of a visible endpoint, and its types are the translated ones of those endpoints |
| QueryLaws.DemangledTypesAreListed | rmw_cyclonedds_c/src/rmw_cyclonedds_c.c:1580-1603 | a visible endpoint's type is listed unchanged when it lacks the marker or the final underscore, and as the ROS type name when it was generated from components without marker |
| Names.TopicNamesRoundTrip | rmw_cyclonedds_c/src/rmw_cyclonedds_c.c:1563-1578 | a DDS topic is reported as t iff t is absolute and the DDS topic is the one made from t |
| Names.MarkerEndsBeforeLast | rmw_cyclonedds_c/src/rmw_cyclonedds_c.c:1600-1601 | the subtraction that gives the length of the type part cannot underflow |
| Names.TypeOutputFits | rmw_cyclonedds_c/src/rmw_cyclonedds_c.c:1580-1603 | the demangled type name is never longer than the DDS type name |
| Names.TypeOutputIs | rmw_cyclonedds_c/src/rmw_cyclonedds_c.c:1580-1603 | when a type name stays unchanged, and what becomes of one with a marker and a final underscore |
| Names.GraphTypeOutputName | rmw_cyclonedds_c/src/rmw_cyclonedds_c.c:1580-1603 | the character loop writes the demangled name and its terminator within the 257-byte buffer |
| Names.TypeNamesRoundTrip | rosidl_typesupport_cyclonedds_c/resource/idl__type_support_c.c.em:127-128 | demangling the generated DDS type name gives the generated ROS type name iff no namespace component ends in dds_ (components and name without colons) |
| Names.MarkerInsideComponent | rosidl_typesupport_cyclonedds_c/resource/idl__type_support_c.c.em:127-128 | a concrete name for which demangling does not give the ROS type name back |
| LocalSpec.InitialInv | rmw_cyclonedds_c/src/rmw_cyclonedds_c.c:1243-1245 | the state that initialization leaves satisfies the context invariant |
| LocalSpec.PerformKeepsInv | rmw_cyclonedds_c/src/rmw_cyclonedds_c.c:591-774 | every call, successful or not, keeps the context invariant; in particular the own cached node count never falls below the local node count |
| LocalSpec.ReceiveKeepsInv | rmw_cyclonedds_c/src/rmw_cyclonedds_c.c:501-526 | no foreign cache event breaks the context invariant or changes the own cached nodes |
| LocalSpec.NoLongerTableIsTaken | rmw_cyclonedds_c/src/rmw_cyclonedds_c.c:591-605 | a table that is not longer than the own cached node list is never refused by the own cache |
| LocalSpec.OnlyNodeAddsAreRefused | rmw_cyclonedds_c/src/rmw_cyclonedds_c.c:673-774 | with a working writer every call other than a node addition succeeds as soon as its own checks pass, for any limits and any remote traffic |
| LocalSpec.NodeAddRefusedExactly | rmw_cyclonedds_c/src/rmw_cyclonedds_c.c:614-647 | with a working writer and within the local limits, a node addition fails iff the other participants' cached nodes leave no room for the longer table |
| LocalSpec.CallReturns | rmw_cyclonedds_c/src/rmw_cyclonedds_c.c:614-774 | what every call returns, for any write result, in terms of name lengths, local limits, room in the own cache and what the handle resolves to |
| LocalSpec.LookupIs | rmw_cyclonedds_c/src/rmw_cyclonedds_c.c:607-612 | a handle resolves to what the table holds for it |
| LocalSpec.WireMatchesExcept | rmw_cyclonedds_c/src/rmw_cyclonedds_c.c:591-774 | starting from a written sample equal to the table, the call breaks that iff it is a removal whose write fails, or a node addition that is written and then refused by the own cache |
| LocalSpec.WireCanRunAhead | rmw_cyclonedds_c/src/rmw_cyclonedds_c.c:599-644 | concrete limits and calls for which a node is announced and then rolled back |
| LocalSpec.HandlesAreStable | rmw_cyclonedds_c/src/rmw_cyclonedds_c.c:578-774 | a call changes what its own handle resolves to, as prescribed, and nothing about any other handle, although removal moves nodes to other slots |
| LocalSpec.UnknownHandleIsRefused | rmw_cyclonedds_c/src/rmw_cyclonedds_c.c:607-612 | a handle that does not resolve is refused by every call and nothing changes |
| HandleRuns.LookupIsFold | rmw_cyclonedds_c/src/rmw_cyclonedds_c.c:578-774 | after any run of calls and events a handle resolves to what its own effective calls made of it, one after the other; nothing else counts |
| HandleRuns.RemovedStaysRemoved | rmw_cyclonedds_c/src/rmw_cyclonedds_c.c:607-695 | a removed handle stays unresolved, and every call on it is refused without effect, until a node is added under it again |
| SlotTables.SlotTable.Reset | rmw_cyclonedds_c/src/rmw_cyclonedds_c.c:578-589 | clears one slot and its two rows and changes no other slot |
| SlotTables.SlotTable.Copy | rmw_cyclonedds_c/src/rmw_cyclonedds_c.c:649-671 | copies names, rows and lengths over a reset slot and changes no other slot |
| SlotTables.SlotTable.Find | rmw_cyclonedds_c/src/rmw_cyclonedds_c.c:752-758 | the index of the first matching entry, or the length |
| SlotTables.SlotTable.RemoveGid | rmw_cyclonedds_c/src/rmw_cyclonedds_c.c:765-769 | shifting one row removes exactly one entry, clears the last place, and touches no other row |
| NodeTables.NodeTable.NodeIsValid | rmw_cyclonedds_c/src/rmw_cyclonedds_c.c:607-612 | the test on handle, index and owner array is true iff the handle is live, and its index is then its slot |
| NodeTables.NodeTable.CopyNode | rmw_cyclonedds_c/src/rmw_cyclonedds_c.c:649-671 | moves a slot and its owner and rewrites the owner's back-index |
| NodeTables.NodeTable.Claim | rmw_cyclonedds_c/src/rmw_cyclonedds_c.c:614-637 | refused as specified, or the node gets the next slot; handles and slots stay in bijection |
| NodeTables.NodeTable.CloseSlot | rmw_cyclonedds_c/src/rmw_cyclonedds_c.c:689-694 | the shifting loop removes one slot; every remaining handle's back-index is its new slot, and the freed slot is vacant |
| NodeTables.NodeTable.Release | rmw_cyclonedds_c/src/rmw_cyclonedds_c.c:673-695 | refused as specified, or exactly that node leaves the table and its handle is detached |
| LocalGraphs.LocalGraph.PublishLocked | rmw_cyclonedds_c/src/rmw_cyclonedds_c.c:591-605 | the written sample is the table; on success it is applied to the own cache; the result is that of the cache |
| LocalGraphs.LocalGraph.AddNode | rmw_cyclonedds_c/src/rmw_cyclonedds_c.c:614-647 | state and result are those of the specified call, including the roll-back |
| LocalGraphs.LocalGraph.RemoveNode | rmw_cyclonedds_c/src/rmw_cyclonedds_c.c:673-700 | state and result are those of the specified call; a removed handle is detached from its context |
| LocalGraphs.LocalGraph.AddEndpoint | rmw_cyclonedds_c/src/rmw_cyclonedds_c.c:707-737 | state and result are those of the specified call, including the roll-back |
| LocalGraphs.LocalGraph.RemoveEndpoint | rmw_cyclonedds_c/src/rmw_cyclonedds_c.c:739-774 | state and result are those of the specified call; the removal stays even when the write fails |
| LocalGraphs.LocalGraph.UpsertOrUndo | rmw_cyclonedds_c/src/rmw_cyclonedds_c.c:1874-1879 | the own cache takes the endpoint, or the graph entry is taken back and the creation fails |
| LocalGraphs.LocalGraph.CreateEndpoint | rmw_cyclonedds_c/src/rmw_cyclonedds_c.c:1870-1880 | state and result of creating an endpoint: it enters the graph, then the own cache, and leaves the graph again if the cache refuses it |
| LocalGraphs.LocalGraph.DestroyEndpoint | rmw_cyclonedds_c/src/rmw_cyclonedds_c.c:1917-1919 | state and result of destroying an endpoint: it leaves the own cache, then the graph |
| LocalGraphs.LocalGraph.OnDataAvailable | rmw_cyclonedds_c/src/rmw_cyclonedds_c.c:490-566 | a discovery callback keeps the context invariant and changes nothing but the cache, where a prefix of the pending samples has its effects in order; without a failed take the prefix is everything |
| Convergence.NextKeepsInv | rmw_cyclonedds_c/src/rmw_cyclonedds_c.c:334-774 | every move of either context or the network keeps the two-context invariant |
| Convergence.PeersConverge | rmw_cyclonedds_c/src/rmw_cyclonedds_c.c:334-774 | in every run, if A's last publish succeeded and the last sample B took is A's last, B's cached nodes for A are A's table: names, order and endpoint lists |
| Convergence.PeersNeverInvent | rmw_cyclonedds_c/src/rmw_cyclonedds_c.c:334-411 | in every run, B's nodes for A are those of the last sample of A it took since it last lost A, or none |
| Convergence.ArrivalHasEffect | rmw_cyclonedds_c/src/rmw_cyclonedds_c.c:334-411 | in every run, an arriving sample of A is taken iff B has room for it, and then gives B exactly its nodes for A |
| Convergence.ArrivalOfLastConverges | rmw_cyclonedds_c/src/rmw_cyclonedds_c.c:334-774 | in every run, when A's last sample arrives, B has room and A's last publish succeeded, B's cached nodes for A are A's table |
| Lifecycle.OwnershipOverRuns | rmw_cyclonedds_c/src/rmw_cyclonedds_c.c:1317-1404 | over every run of creations and destructions, even with failing writes, allocated nodes are exactly the live handles and each list holds exactly the GUIDs of the endpoint objects of its node, each once |
| Lifecycle.NodeOutlivesItsEndpoints | rmw_cyclonedds_c/src/rmw_cyclonedds_c.c:1374-1404 | destroying a node is refused iff it is unknown or an endpoint object still points to it |
| Lifecycle.EnterThenLeave | rmw_cyclonedds_c/src/rmw_cyclonedds_c.c:707-774 | entering the graph and leaving it again succeeds and restores the table and every answer |
| Lifecycle.RefusedCreateRestores | rmw_cyclonedds_c/src/rmw_cyclonedds_c.c:1871-1878 | a creation that fails at the write, in the graph or in the cache leaves the table, the cached endpoints, every visible endpoint and the multiset of nodes as they were |
| Lifecycle.CreateThenDestroyRestores | rmw_cyclonedds_c/src/rmw_cyclonedds_c.c:1871-1919 | create then destroy restores the table, the cached endpoints, every visible endpoint and the multiset of nodes |
| Lifecycle.CreateAddsOneVisible | rmw_cyclonedds_c/src/rmw_cyclonedds_c.c:1871-1880 | a created endpoint becomes visible and nothing else changes visibility |
| Lifecycle.CreateRaisesOneCount | rmw_cyclonedds_c/src/rmw_cyclonedds_c.c:1524-1551 | creating an endpoint with a fresh GUID raises exactly the count of its own topic and direction, by one |
| EndpointLaws.CreateSucceedsExactly | rmw_cyclonedds_c/src/rmw_cyclonedds_c.c:1870-1880 | creation succeeds iff the announcement is written, the handle resolves, its list is not full, topic and type name fit, and the GUID is cached or there is room |
| EndpointLaws.DestroyDropsOneEntry | rmw_cyclonedds_c/src/rmw_cyclonedds_c.c:1917-1919 | in any context and for any write result, destruction drops exactly the cached entry with the endpoint's GUID |
| EndpointLaws.DestroyTakesOneGuid | rmw_cyclonedds_c/src/rmw_cyclonedds_c.c:1917-1919 | the table loses exactly one occurrence of that GUID from that list, even if the write fails; an unlisted one is refused and changes no list |
| EndpointLaws.DestroyHidesOneGuid | rmw_cyclonedds_c/src/rmw_cyclonedds_c.c:1917-1919 | what is visible afterwards is what was visible under other GUIDs: always when the write fails, and when the own cache holds the table if it works |
| EndpointLaws.DestroyLowersOneCount | rmw_cyclonedds_c/src/rmw_cyclonedds_c.c:1917-1919 | destroying an existing endpoint, whatever else was created since, succeeds, hides exactly its entry, lowers the count of its topic and direction by one and changes no other count |
| Readers.YieldsOnce | rmw_cyclonedds_c/src/rmw_cyclonedds_c.c:1541-1549 | a program that reads a cache state that nobody changes has at most one answer |
| Readers.AccessBringsCloser | rmw_cyclonedds_c/src/rmw_cyclonedds_c.c:1541-1549 | every access of a program that ends leaves it exactly one access less to go |
| QueryPrograms.CountQueryAnswers | rmw_cyclonedds_c/src/rmw_cyclonedds_c.c:1541-1549 | on every cache the count query ends, with the number of distinct visible endpoints of the topic and direction |
| QueryPrograms.NamesQueryAnswers | rmw_cyclonedds_c/src/rmw_cyclonedds_c.c:1460-1490 | on every cache the node listing ends, with the names and namespaces of the cached nodes in order |
| QueryPrograms.SeenRuns | rmw_cyclonedds_c/src/rmw_cyclonedds_c.c:1688-1704 | the inner loop over earlier endpoints, with its own association tests, decides whether the type was seen before |
| QueryPrograms.TopicsQueryAnswers | rmw_cyclonedds_c/src/rmw_cyclonedds_c.c:1630-1744 | on every cache the topic listing ends, with the listed topics and for each of them an array whose size is the number of its listed types and which holds exactly those |
| QueryPrograms.ProgramsAreQueries | rmw_cyclonedds_c/src/rmw_cyclonedds_c.c:1460-1744 | on every cache within the limits each of the three programs ends, so each of them is a query in the sense of the executions below |
| Locks.NextKeepsLocks | rmw_cyclonedds_c/src/rmw_cyclonedds_c.c:203-223 | in every interleaving each lock is held by exactly the thread whose state says so |
| Locks.CommitIsSequential | rmw_cyclonedds_c/src/rmw_cyclonedds_c.c:591-605 | a finished critical section has exactly the effect of the sequential operation on the state the log has led to, and tells its caller the same result |
| Locks.FinishIsLogged | rmw_cyclonedds_c/src/rmw_cyclonedds_c.c:591-605 | a call or update that takes effect and a query that returns are logged in that same move, with the result or answer they give out |
| Locks.StartsAndAdvancesExactly | rmw_cyclonedds_c/src/rmw_cyclonedds_c.c:203-223 | an idle thread can start anything, and a started one goes on iff the lock it waits for is free |
| Locks.CommitKeepsConsistent | rmw_cyclonedds_c/src/rmw_cyclonedds_c.c:591-605 | after a finished critical section every other thread's view and the memory still agree with the sequential run |
| Locks.ReaderSeesOneState | rmw_cyclonedds_c/src/rmw_cyclonedds_c.c:1541-1549 | while a thread is reading, whatever move any thread makes, the cache memory is the replayed state between whole updates and does not change |
| Locks.MutualExclusion | rmw_cyclonedds_c/src/rmw_cyclonedds_c.c:203-223 | no two threads hold the same lock; a thread waiting for the graph lock holds none, and one waiting for the cache lock does not hold it |
| Locks.SomebodyCanAdvance | rmw_cyclonedds_c/src/rmw_cyclonedds_c.c:203-223 | whenever a thread has not finished, some thread can go on: no deadlock |
| Locks.AdvancesEnd | rmw_cyclonedds_c/src/rmw_cyclonedds_c.c:356-411 | every advance of a call, an update or any query that ends brings its thread closer to holding nothing, in a well-founded order, and delays no other thread |
| LockRuns.ExecutionsAreSequential | rmw_cyclonedds_c/src/rmw_cyclonedds_c.c:203-223 | every interleaving of calls, callbacks and queries is equivalent to a sequential run of the logged operations: every result and every answer given out is the one of that run at its place in the log, and memory whose lock is free holds the run's result |
| LockRuns.QueriesAreAtomic | rmw_cyclonedds_c/src/rmw_cyclonedds_c.c:1541-1549 | in every execution, any query that is about to return has the answer that it computes alone on one state between whole cache updates |
| LockRuns.WholeQuerySeesOneState | rmw_cyclonedds_c/src/rmw_cyclonedds_c.c:1632-1744 | over the whole time a thread is reading, in every execution, the cache memory is one and the same replayed state |
| LockRuns.CountsAreAtomic | rmw_cyclonedds_c/src/rmw_cyclonedds_c.c:1541-1549 | in every execution, every answered count is the specified count on the state its place in the log stands for |
| LockRuns.NodeNamesAreAtomic | rmw_cyclonedds_c/src/rmw_cyclonedds_c.c:1461-1489 | in every execution, every answered node listing is that of the nodes of one such state, in order |
| LockRuns.TopicListingsAreAtomic | rmw_cyclonedds_c/src/rmw_cyclonedds_c.c:1632-1744 | in every execution, every answered topic listing holds the listed topics and types of one such state, in arrays of exactly the right size |
| LockRuns.SequentialGuaranteesCarryOver | rmw_cyclonedds_c/src/rmw_cyclonedds_c.c:591-774 | in every execution that adds nodes under new handles and passes on foreign events: at every place of the log the context invariant holds, and a call that could write, other than a node addition, was told what its own checks say |
| WaitSets.WaitSet.constructor | rmw_cyclonedds_c/src/rmw_cyclonedds_c.c:2264-2285 | an empty wait set, with capacity 16 when none is asked for |
| WaitSets.WaitSet.AttachEntity | rmw_cyclonedds_c/src/rmw_cyclonedds_c.c:2337-2349 | refused when full; on success shadow list and DDS wait set gain the entity; an error means that the DDS attach failed, and then neither does |
| WaitSets.WaitSet.DetachAll | rmw_cyclonedds_c/src/rmw_cyclonedds_c.c:2367-2373 | fails iff a DDS detach failed; otherwise nothing is attached; on failure the shadow list is as before and still covers what is attached |
| WaitSets.WaitSet.AttachAll | rmw_cyclonedds_c/src/rmw_cyclonedds_c.c:2367-2399 | an error means that a DDS operation failed; otherwise the call works iff no entry is null and both lists fit the capacity; once the detaches worked the shadow list equals the DDS wait set, even when an attach fails half way |
| WaitSets.WaitSet.WasTriggered | rmw_cyclonedds_c/src/rmw_cyclonedds_c.c:2326-2335 | the loop decides membership in the reported entities |
| WaitSets.WaitSet.FilterList | rmw_cyclonedds_c/src/rmw_cyclonedds_c.c:2415-2434 | each entry survives iff its entity fired; exactly the fired guard conditions are consumed |
| WaitSets.WaitSet.Wait | rmw_cyclonedds_c/src/rmw_cyclonedds_c.c:2351-2436 | for repeated calls: OK or timeout comes from exactly one more DDS wait, on exactly the requested entities, and exactly the entries that wait reported are kept, with exactly the reported guard conditions consumed; timeout iff it reported nothing; an error iff a DDS operation of the call failed; an argument error iff the lists are bad and nothing failed; the shadow list is exact whenever the detaches worked, and stays exact when the call is unsupported |
| WaitSets.ReportIsComplete | rmw_cyclonedds_c/src/rmw_cyclonedds_c.c:2412-2413 | clamping the reported count to the capacity never drops a triggered entity |
| WaitSets.TimeoutIffAllCleared | rmw_cyclonedds_c/src/rmw_cyclonedds_c.c:2435 | nothing fired iff every entry of both lists was cleared |
| Generator.EmitBody | rosidl_typesupport_cyclonedds_c/resource/idl__type_support_c.c.em:23-60 | emission fails iff a member is neither basic nor named nor an array, of any size, of those; otherwise one statement per member in order, which reads the member under its source name and writes it under its destination name |
| Generator.GenerateFile | rosidl_typesupport_cyclonedds_c/resource/idl__type_support_c.c.em:89-123 | generation of a file succeeds iff every member of every message is supported, and emits both converters of every message and nothing else |
| Generator.CollectDependencies | rosidl_typesupport_cyclonedds_c/resource/idl__type_support_c.c.em:65-73 | the dictionary holds exactly the named types of members and array elements, each under its own name |
| Generator.CallsAreDependencies | rosidl_typesupport_cyclonedds_c/resource/idl__type_support_c.c.em:23-73 | a nested converter is called by the emitted code of either direction iff its type is among the collected dependencies |
| ConverterProofs.GeneratedFilesLink | rosidl_typesupport_cyclonedds_c/resource/idl__type_support_c.c.em:89-123 | what is emitted for the files of any set of definitions, put together, is a program that holds both converters of every definition |
| ConverterProofs.LoopPreserves | rosidl_typesupport_cyclonedds_c/resource/idl__type_support_c.c.em:51-59 | the emitted counted loop converts every element of an array member |
| ConverterProofs.MemberPreserves | rosidl_typesupport_cyclonedds_c/resource/idl__type_support_c.c.em:43-60 | the statement of a member converts that member and writes nothing else |
| ConverterProofs.ConverterPreserves | rosidl_typesupport_cyclonedds_c/resource/idl__type_support_c.c.em:95-123 | for every acyclic set of supported definitions and every value, each converter terminates, returns true and leaves the source's message in the destination |
| ConverterProofs.RoundTrip | rosidl_typesupport_cyclonedds_c/resource/idl__type_support_c.c.em:95-123 | converting across and back, in either order, gives the original value whatever the destinations held |
| ConverterProofs.OldContentIsOverwritten | rosidl_typesupport_cyclonedds_c/resource/idl__type_support_c.c.em:95-123 | the result does not depend on the old content of the destination |

## Left out

- Cyclone DDS itself: discovery, matching, retransmission, durability. Its calls are nondeterministic steps.
- Initialization, shutdown, options, allocation failure, error strings, limit reports on stderr, timeouts of the wait.
- QoS checks, type hashes, actual-QoS getters, GID comparison, match counts, the unsupported entry points.
- Publishing and taking application messages, beyond the generated converters they call.
- GUID bytes and memory layout: a GUID is an opaque value with equality, a string is a sequence of characters
  without the terminator, and a struct that is copied whole is a value. Buffers of the cached nodes' endpoint lists are
  therefore sequences inside such a value; the arrays of nodes, participants and endpoints, and the local
  table's reader and writer rows, are arrays that are updated in place.
- Machine integers: counts are unbounded numbers. Every count is proved to stay within a configured limit, but
  limits near the width of size_t or uint32_t are not modelled.
- The text of the emitted C: emitted statements are a syntax tree, and converter identifiers are pairs of type and
  direction, so collisions of joined C identifiers are not modelled.
- Readers.Accessed: one access reads one count or one whole array element; the characters of a name and the GUIDs of a node
  are not read one by one. The output arrays belong to the querying thread alone, and their allocation succeeds.
- LockRuns.ExecutionsAreSequential: the intermediate memory of an update is arbitrary until the update ends, where the sequential
  contract of the class method says what it is; single stores of an update are not interleaved, and no thread reads between them.
- Names.TypeNamesRoundTrip: names containing a colon are not considered; message names cannot contain one.
- Discovery.OwnEntriesUntouched: assumes that discovery reports each endpoint GUID with the participant it belongs to, which
  is DDS's promise and not this code's; Discovery.OwnEntriesLostExactly is the statement without that assumption.
